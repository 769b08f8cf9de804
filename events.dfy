/**
 * The event batch of the copy thread: one change event as the client holds
 * it, the interning of its names within a batch (find_event), the
 * classification of the server's reply to EVENT (get_next_event), and the
 * accounting of the fixed-size name arena the batch's names are stored in.
 *
 * Names are handles rather than pointers: handle 0 stands for a missing
 * name (NULL), and handle h >= 1 for the h-th string stored in the batch's
 * name table.  Identity of names is equality of handles, as identity of
 * pointers is in the source.
 */
module Events {
  import opened Types
  import opened Scan

  type Handle = nat

  /** The stat part of an event, as the server sends it. */
  datatype Stat = Stat(mode: int, user: int, group: int, size: int, mtime: int, device: int)

  /** One change event. */
  datatype Event = Event(
    kind: EventType,
    fileType: FileType,
    statValid: bool,
    from: Handle, fromLength: int,
    to: Handle, toLength: int,
    stat: Stat)

  /** An event with its names resolved to strings, as cp receives it; a
   *  missing to_name is None. */
  datatype Change = Change(
    kind: EventType,
    fileType: FileType,
    statValid: bool,
    from: Option<string>,
    to: Option<string>,
    stat: Stat)

  /** The string a handle stands for in the name table. */
  function NameOf(names: seq<string>, h: Handle): string
  {
    if 1 <= h <= |names| then names[h - 1] else ""
  }

  /** Slot of event e holds name c in the sense of find_event: same length
   *  field and same bytes. */
  predicate FromMatches(names: seq<string>, e: Event, c: string)
  {
    e.fromLength == |c| && NameOf(names, e.from) == c
  }

  predicate ToMatches(names: seq<string>, e: Event, c: string)
  {
    e.toLength == |c| && NameOf(names, e.to) == c
  }

  /** The handle find_event aliases a new name to: the first earlier event
   *  whose from-name, then whose to-name, has the same length and bytes. */
  function FirstMatch(evs: seq<Event>, names: seq<string>, c: string): Option<Handle>
  {
    if evs == [] then None
    else if FromMatches(names, evs[0], c) then Some(evs[0].from)
    else if ToMatches(names, evs[0], c) then Some(evs[0].to)
    else FirstMatch(evs[1..], names, c)
  }

  /** Some slot of some event in evs holds c. */
  predicate AnyMatch(evs: seq<Event>, names: seq<string>, c: string)
  {
    exists en :: 0 <= en < |evs| && (FromMatches(names, evs[en], c) || ToMatches(names, evs[en], c))
  }

  /** No slot of the events before index en holds c. */
  predicate NoMatchBefore(evs: seq<Event>, names: seq<string>, c: string, en: int)
    requires en <= |evs|
  {
    forall k :: 0 <= k < en ==> !FromMatches(names, evs[k], c) && !ToMatches(names, evs[k], c)
  }

  /** A first match exists exactly when some slot matches. */
  lemma {:induction false} FirstMatchExists(evs: seq<Event>, names: seq<string>, c: string)
    ensures FirstMatch(evs, names, c).Some? <==> AnyMatch(evs, names, c)
  {
    if evs != [] {
      FirstMatchExists(evs[1..], names, c);
      if !FromMatches(names, evs[0], c) && !ToMatches(names, evs[0], c) {
        if AnyMatch(evs, names, c) {
          var en :| 0 <= en < |evs| && (FromMatches(names, evs[en], c) || ToMatches(names, evs[en], c));
          assert evs[1..][en - 1] == evs[en];
        }
        if AnyMatch(evs[1..], names, c) {
          var en :| 0 <= en < |evs[1..]| && (FromMatches(names, evs[1..][en], c) || ToMatches(names, evs[1..][en], c));
          assert evs[1..][en] == evs[en + 1];
        }
      }
    }
  }

  /** The handle of a first match denotes c, and c has the slot's length. */
  lemma {:induction false} FirstMatchSound(evs: seq<Event>, names: seq<string>, c: string)
    requires FirstMatch(evs, names, c).Some?
    ensures NameOf(names, FirstMatch(evs, names, c).value) == c
  {
    if !FromMatches(names, evs[0], c) && !ToMatches(names, evs[0], c) {
      FirstMatchSound(evs[1..], names, c);
    }
  }

  /** A match in the front part of a batch hides any in the rest. */
  lemma {:induction false} FirstMatchAppend(a: seq<Event>, b: seq<Event>, names: seq<string>, c: string)
    ensures FirstMatch(a + b, names, c) ==
      if FirstMatch(a, names, c).Some? then FirstMatch(a, names, c) else FirstMatch(b, names, c)
  {
    if a != [] {
      assert (a + b)[0] == a[0];
      assert (a + b)[1..] == a[1..] + b;
      FirstMatchAppend(a[1..], b, names, c);
    } else {
      assert a + b == b;
    }
  }

  /**
   * find_event: the scan over the earlier events of the batch.  It returns
   * whether a match was found and the handle the new name now denotes; when
   * nothing matches, the handle passed in is returned unchanged.
   */
  method FindEvent(len: int, name: Handle, c: string, evlist: seq<Event>, names: seq<string>)
    returns (found: bool, h: Handle)
    requires len == |c|
    ensures found <==> AnyMatch(evlist, names, c)
    ensures found ==> (exists en :: 0 <= en < |evlist| && NoMatchBefore(evlist, names, c, en) &&
                         ((FromMatches(names, evlist[en], c) && h == evlist[en].from) ||
                          (!FromMatches(names, evlist[en], c) && ToMatches(names, evlist[en], c) && h == evlist[en].to)))
    ensures found ==> Some(h) == FirstMatch(evlist, names, c)
    ensures !found ==> h == name
  {
    var en := 0;
    while en < |evlist|
      invariant 0 <= en <= |evlist|
      invariant FirstMatch(evlist, names, c) == FirstMatch(evlist[en..], names, c)
      invariant NoMatchBefore(evlist, names, c, en)
    {
      assert evlist[en..][0] == evlist[en];
      assert evlist[en..][1..] == evlist[en + 1..];
      if evlist[en].fromLength == len && NameOf(names, evlist[en].from) == c {
        found, h := true, evlist[en].from;
        return;
      }
      if evlist[en].toLength == len && NameOf(names, evlist[en].to) == c {
        found, h := true, evlist[en].to;
        return;
      }
      en := en + 1;
    }
    assert evlist[|evlist|..] == [];
    found, h := false, name;
  }

  // ---------------------------------------------------------------------
  // Interning invariant of a batch

  /** The largest handle any slot of evs holds. */
  function MaxHandle(evs: seq<Event>): (m: nat)
    ensures forall k :: 0 <= k < |evs| ==> evs[k].from <= m && evs[k].to <= m
  {
    if evs == [] then 0
    else
      var rest := MaxHandle(evs[1..]);
      var here := if evs[0].from < evs[0].to then evs[0].to else evs[0].from;
      var m := if here < rest then rest else here;
      assert forall k :: 1 <= k < |evs| ==> evs[k] == evs[1..][k - 1];
      m
  }

  /** A slot of length len received after the events prev holds handle h as
   *  get_next_event leaves it: no name when len <= 0; otherwise the first
   *  earlier match if there is one, else a name stored afresh. */
  predicate SlotInterned(prev: seq<Event>, names: seq<string>, len: int, h: Handle)
  {
    if len <= 0 then h == 0
    else
      1 <= h <= |names| && |NameOf(names, h)| == len &&
      match FirstMatch(prev, names, NameOf(names, h))
      case Some(g) => h == g
      case None => h > MaxHandle(prev)
  }

  /** Every event of the batch holds its names as get_next_event left them. */
  predicate Interned(evs: seq<Event>, names: seq<string>)
  {
    forall k :: 0 <= k < |evs| ==>
      SlotInterned(evs[..k], names, evs[k].fromLength, evs[k].from) &&
      SlotInterned(evs[..k], names, evs[k].toLength, evs[k].to)
  }

  /**
   * What interning buys the optimiser: two events whose from-names are the
   * same string hold the same handle, so comparing handles compares names.
   */
  lemma SameFromNameSameHandle(evs: seq<Event>, names: seq<string>, j: nat, k: nat)
    requires Interned(evs, names)
    requires j < k < |evs|
    requires evs[j].fromLength > 0 && evs[k].fromLength > 0
    requires NameOf(names, evs[j].from) == NameOf(names, evs[k].from)
    ensures evs[j].from == evs[k].from
  {
    var c := NameOf(names, evs[k].from);
    assert SlotInterned(evs[..j], names, evs[j].fromLength, evs[j].from);
    assert SlotInterned(evs[..k], names, evs[k].fromLength, evs[k].from);
    EarlierSlotFound(evs, names, j, k, c, true);
  }

  /**
   * The same holds between an earlier to-name and a later from- or to-name,
   * except when the earlier event's own from-name is that string too: its
   * to-name was interned before its from-name was in the list, so the two
   * names of that one event hold different handles.
   */
  lemma SameToNameSameHandle(evs: seq<Event>, names: seq<string>, j: nat, k: nat, laterIsFrom: bool)
    requires Interned(evs, names)
    requires j < k < |evs|
    requires evs[j].toLength > 0
    requires laterIsFrom ==> evs[k].fromLength > 0 && NameOf(names, evs[j].to) == NameOf(names, evs[k].from)
    requires !laterIsFrom ==> evs[k].toLength > 0 && NameOf(names, evs[j].to) == NameOf(names, evs[k].to)
    requires !FromMatches(names, evs[j], NameOf(names, evs[j].to))
    ensures laterIsFrom ==> evs[j].to == evs[k].from
    ensures !laterIsFrom ==> evs[j].to == evs[k].to
  {
    var c := NameOf(names, evs[j].to);
    assert SlotInterned(evs[..j], names, evs[j].toLength, evs[j].to);
    assert SlotInterned(evs[..k], names, evs[k].fromLength, evs[k].from);
    assert SlotInterned(evs[..k], names, evs[k].toLength, evs[k].to);
    EarlierSlotFound(evs, names, j, k, c, false);
  }

  /** The exception is real: the to-name of a rename "a" -> "a" keeps a
   *  handle of its own, which a later event naming "a" does not share. */
  lemma SelfRenameKeepsOwnToHandle()
    ensures var st := Stat(0, 0, 0, 0, 0, 0);
      var e0 := Event(Rename, Regular, false, 1, 1, 2, 1, st);
      var e1 := Event(Delete, Regular, false, 1, 1, 0, 0, st);
      Interned([e0, e1], ["a", "a"]) &&
      NameOf(["a", "a"], e0.to) == NameOf(["a", "a"], e1.from) && e0.to != e1.from
  {
    var st := Stat(0, 0, 0, 0, 0, 0);
    var e0 := Event(Rename, Regular, false, 1, 1, 2, 1, st);
    var e1 := Event(Delete, Regular, false, 1, 1, 0, 0, st);
    var evs := [e0, e1];
    var names := ["a", "a"];
    assert evs[..0] == [] && evs[..1] == [e0];
    assert FirstMatch([e0], names, "a") == Some(1);
    assert MaxHandle([]) == 0;
    assert SlotInterned(evs[..0], names, 1, 1);
    assert SlotInterned(evs[..0], names, 1, 2);
    assert SlotInterned(evs[..1], names, 1, 1);
  }

  /** The first match for c before k, when slot (from or to) of event j < k holds c. */
  lemma EarlierSlotFound(evs: seq<Event>, names: seq<string>, j: nat, k: nat, c: string, fromSlot: bool)
    requires Interned(evs, names)
    requires j < k <= |evs|
    requires fromSlot ==> evs[j].fromLength > 0 && FromMatches(names, evs[j], c)
    requires !fromSlot ==> evs[j].toLength > 0 && ToMatches(names, evs[j], c) && !FromMatches(names, evs[j], c)
    ensures FirstMatch(evs[..k], names, c) == Some(if fromSlot then evs[j].from else evs[j].to)
  {
    assert evs[..k] == evs[..j] + evs[j..k];
    FirstMatchAppend(evs[..j], evs[j..k], names, c);
    assert evs[j..k][0] == evs[j];
    assert SlotInterned(evs[..j], names, evs[j].fromLength, evs[j].from);
    assert SlotInterned(evs[..j], names, evs[j].toLength, evs[j].to);
    if FirstMatch(evs[..j], names, c).Some? {
      if fromSlot {
        assert NameOf(names, evs[j].from) == c;
      } else {
        assert NameOf(names, evs[j].to) == c;
      }
    }
  }

  /** Adding a string to the table does not change what the earlier handles
   *  denote, hence not which earlier slot matches. */
  lemma {:induction false} FirstMatchGrow(evs: seq<Event>, names: seq<string>, s: string, c: string)
    requires MaxHandle(evs) <= |names|
    ensures FirstMatch(evs, names + [s], c) == FirstMatch(evs, names, c)
  {
    if evs != [] {
      assert NameOf(names + [s], evs[0].from) == NameOf(names, evs[0].from);
      assert NameOf(names + [s], evs[0].to) == NameOf(names, evs[0].to);
      assert MaxHandle(evs[1..]) <= MaxHandle(evs) by {
        assert forall k :: 0 <= k < |evs[1..]| ==> evs[1..][k] == evs[k + 1];
        MaxHandleBound(evs[1..], MaxHandle(evs));
      }
      FirstMatchGrow(evs[1..], names, s, c);
    }
  }

  lemma {:induction false} MaxHandleBound(evs: seq<Event>, m: nat)
    requires forall k :: 0 <= k < |evs| ==> evs[k].from <= m && evs[k].to <= m
    ensures MaxHandle(evs) <= m
  {
    if evs != [] {
      assert forall k :: 0 <= k < |evs[1..]| ==> evs[1..][k] == evs[k + 1];
      MaxHandleBound(evs[1..], m);
    }
  }

  lemma MaxHandlePrefix(evs: seq<Event>, k: nat)
    requires k <= |evs|
    ensures MaxHandle(evs[..k]) <= MaxHandle(evs)
  {
    MaxHandleBound(evs[..k], MaxHandle(evs));
  }

  /** A slot that was interned stays interned when the table grows. */
  lemma SlotInternedGrow(prev: seq<Event>, names: seq<string>, s: string, len: int, h: Handle)
    requires MaxHandle(prev) <= |names|
    requires h <= |names|
    requires SlotInterned(prev, names, len, h)
    ensures SlotInterned(prev, names + [s], len, h)
  {
    if len > 0 {
      assert NameOf(names + [s], h) == NameOf(names, h);
      FirstMatchGrow(prev, names, s, NameOf(names, h));
    }
  }

  lemma InternedGrow(evs: seq<Event>, names: seq<string>, s: string)
    requires Interned(evs, names)
    requires MaxHandle(evs) <= |names|
    ensures Interned(evs, names + [s])
  {
    forall k | 0 <= k < |evs|
      ensures SlotInterned(evs[..k], names + [s], evs[k].fromLength, evs[k].from)
      ensures SlotInterned(evs[..k], names + [s], evs[k].toLength, evs[k].to)
    {
      MaxHandlePrefix(evs, k);
      SlotInternedGrow(evs[..k], names, s, evs[k].fromLength, evs[k].from);
      SlotInternedGrow(evs[..k], names, s, evs[k].toLength, evs[k].to);
    }
  }

  /** Appending an event whose two slots are interned keeps the batch interned. */
  lemma InternedAppend(evs: seq<Event>, names: seq<string>, e: Event)
    requires Interned(evs, names)
    requires SlotInterned(evs, names, e.fromLength, e.from)
    requires SlotInterned(evs, names, e.toLength, e.to)
    ensures Interned(evs + [e], names)
  {
    var evs' := evs + [e];
    assert evs'[..|evs|] == evs;
    forall k | 0 <= k < |evs|
      ensures evs'[..k] == evs[..k] && evs'[k] == evs[k]
    {
    }
  }

  // ---------------------------------------------------------------------
  // Reply classification

  /** What get_next_event makes of the server's reply line. */
  /** The number of %d fields of an event header. */
  const HeaderFields: nat := 8

  datatype ReplyKind =
    | Timeout                        // "NO": no event before the timeout
    | TooBig                         // "BI": the event does not fit the budget
    | BadReply                       // anything else that is not "EV"
    | BadEvent(scanned: seq<int>)   // "EV" with fewer than eight integers
    | EventHeader(fields: seq<int>)  // "EV" and eight integers

  /** The text after the two-character status code and the white space
   *  that follows it. */
  function ReplyBody(reply: string): string
  {
    var rest := if |reply| >= 2 then reply[2..] else [];
    rest[SkipSpaces(rest, 0)..]
  }

  /** What the reply body says: "NO", "BI", or "EV" followed by eight %d
   *  fields (fnum, fpos, event type, file type, stat_valid, mtime_valid,
   *  from_length, to_length). */
  function ClassifyBody(b: string): (r: ReplyKind)
    ensures r.EventHeader? ==> |r.fields| == 8
    ensures r.BadEvent? ==> |r.scanned| < 8
  {
    if |b| >= 2 && b[0] == 'N' && b[1] == 'O' then Timeout
    else if |b| >= 2 && b[0] == 'B' && b[1] == 'I' then TooBig
    else if !(|b| >= 2 && b[0] == 'E' && b[1] == 'V') then BadReply
    else
      var ints := ScanInts(b[2..], HeaderFields);
      if |ints| < HeaderFields then BadEvent(ints) else EventHeader(ints)
  }

  /** Classification of a reply line by get_next_event. */
  function ClassifyReply(reply: string): (r: ReplyKind)
    ensures r.EventHeader? ==> |r.fields| == 8
    ensures r.BadEvent? ==> |r.scanned| < 8
  {
    ClassifyBody(ReplyBody(reply))
  }

  /** The body of a reply is what follows the status code and white space. */
  lemma ReplyBodyAfterSpaces(reply: string, status: string, ws: string, body: string)
    requires reply == status + ws + body && |status| == 2 && AllSpaces(ws)
    requires body != [] && !IsSpace(body[0])
    ensures ReplyBody(reply) == body
  {
    var rest := reply[2..];
    assert rest == ws + body;
    assert rest[0..|ws|] == ws;
    assert rest[|ws|] == body[0];
    SkipSpacesOver(rest, 0, |ws|);
    assert rest[|ws|..] == body;
  }

  /** The event header the server writes is read back as written. */
  lemma EventReplyRoundTrip(status: string, fields: seq<int>)
    requires |status| == 2 && |fields| == 8
    ensures ClassifyReply(status + " EV" + FormatInts(fields)) == EventHeader(fields)
  {
    var f := FormatInts(fields);
    var body := "EV" + f;
    var reply := status + " EV" + f;
    assert " EV" == " " + "EV";
    AppendAssoc(status, " ", "EV");
    AppendAssoc(status + " ", "EV", f);
    assert reply == status + " " + body;
    assert AllSpaces(" ");
    ReplyBodyAfterSpaces(reply, status, " ", body);
    EventBodyRoundTrip(fields);
    assert ClassifyReply(reply) == ClassifyBody(body);
  }

  lemma EventBodyRoundTrip(fields: seq<int>)
    requires |fields| == 8
    ensures ClassifyBody("EV" + FormatInts(fields)) == EventHeader(fields)
  {
    var f := FormatInts(fields);
    var body := "EV" + f;
    assert body[0] == 'E' && body[1] == 'V' && body[2..] == f;
    assert f + "" == f;
    ScanFormatInts(fields, "");
    assert ScanInts(body[2..], HeaderFields) == fields;
  }

  /** "NO" and "BI" replies, with any white space between them and the status. */
  lemma ShortRepliesClassified(status: string, ws: string, tail: string)
    requires |status| == 2 && AllSpaces(ws)
    ensures ClassifyReply(status + ws + "NO" + tail) == Timeout
    ensures ClassifyReply(status + ws + "BI" + tail) == TooBig
  {
    ReplyBodyAfterSpaces(status + ws + "NO" + tail, status, ws, "NO" + tail);
    ReplyBodyAfterSpaces(status + ws + "BI" + tail, status, ws, "BI" + tail);
  }

  // ---------------------------------------------------------------------
  // Arena accounting

  /** Arena bytes an event's names need: each present name and its NUL. */
  function NameSpace(fromLength: int, toLength: int): (n: int)
    ensures n >= 0
    ensures n == 0 <==> fromLength <= 0 && toLength <= 0
  {
    (if fromLength > 0 then 1 + fromLength else 0) + (if toLength > 0 then 1 + toLength else 0)
  }

  datatype Reservation = InArena(offset: int) | OverflowBuffer | NoRoom | NoMemory

  /** How get_next_event obtains the bytes for one event's names. */
  datatype EvResult = EvOk | EvSysErr | EvSignal | EvTimeout | EvTooBig

  /** What the transport delivered in answer to EVENT / the next EVBATCH line. */
  datatype Transport = Delivered(reply: string) | Failed | Interrupted

  /** Name bytes that arrive after the header; None when the read fails. */
  datatype Incoming = Incoming(
    transport: Transport,
    fromBytes: Option<string>,
    toBytes: Option<string>,
    stat: Option<Stat>,      // the STAT/NSTAT line, None when it does not parse
    mtime: Option<int>)      // the MTIME line, None when it does not parse

  /** A name slot of announced length len holds handle h for the bytes that
   *  arrived: no name when len <= 0, otherwise a handle denoting the first
   *  len bytes received. */
  predicate NameReceived(names: seq<string>, len: int, h: Handle, bytes: Option<string>)
  {
    if len <= 0 then h == 0
    else bytes.Some? && |bytes.value| >= len && NameOf(names, h) == bytes.value[..len]
  }

  /**
   * The reader's side of the batch: the arena cursor and free space, the
   * one-off overflow buffer, the name table, and the position globals that
   * every parsed header overwrites.
   */
  class EventReader {
    const capacity: int
    var evstart: int
    var evspace: int
    var overflowed: bool
    var names: seq<string>
    var fnum: int
    var fpos: int
    var eventCount: int

    ghost predicate Valid()
      reads this
    {
      0 <= evstart && 0 <= evspace && evstart + evspace == capacity
    }

    constructor (evbuff: nat, fnum0: int, fpos0: int, count0: int)
      ensures Valid() && capacity == evbuff && evstart == 0 && evspace == evbuff
      ensures !overflowed && names == []
      ensures fnum == fnum0 && fpos == fpos0 && eventCount == count0
    {
      capacity := evbuff;
      evstart, evspace := 0, evbuff;
      overflowed := false;
      names := [];
      fnum, fpos, eventCount := fnum0, fpos0, count0;
    }

    /**
     * The space check of get_next_event: an event whose names need more than
     * the free space is refused when no overflow buffer may be used, gets the
     * overflow buffer when one may be, and otherwise takes exactly what it
     * needs from the front of the free space.
     */
    method Reserve(need: int, overflowAllowed: bool, mallocOk: bool) returns (r: Reservation)
      requires Valid() && need >= 0
      modifies this`evstart, this`evspace, this`overflowed
      ensures Valid()
      ensures need > old(evspace) && !overflowAllowed ==> r == NoRoom
      ensures need > old(evspace) && overflowAllowed ==> r == (if mallocOk then OverflowBuffer else NoMemory)
      ensures need <= old(evspace) ==> r == InArena(old(evstart))
      ensures r.InArena? ==> evstart == old(evstart) + need && evspace == old(evspace) - need
      ensures !r.InArena? ==> evstart == old(evstart) && evspace == old(evspace)
      ensures overflowed == (old(overflowed) || r == OverflowBuffer)
    {
      if need > evspace {
        if !overflowAllowed {
          return NoRoom;
        }
        if !mallocOk {
          return NoMemory;
        }
        overflowed := true;
        return OverflowBuffer;
      }
      r := InArena(evstart);
      evstart := evstart + need;
      evspace := evspace - need;
    }

    /** Intern one received name (find_event, else store it afresh). */
    method InternName(len: int, bytes: string, evlist: seq<Event>) returns (h: Handle)
      requires len > 0 && |bytes| == len
      requires MaxHandle(evlist) <= |names|
      modifies this`names
      ensures AnyMatch(evlist, old(names), bytes) ==>
        names == old(names) && Some(h) == FirstMatch(evlist, names, bytes)
      ensures !AnyMatch(evlist, old(names), bytes) ==>
        names == old(names) + [bytes] && h == |names|
      ensures NameOf(names, h) == bytes
      ensures SlotInterned(evlist, names, len, h)
    {
      var found;
      found, h := FindEvent(len, 0, bytes, evlist, names);
      if !found {
        names := names + [bytes];
        h := |names|;
        FirstMatchGrow(evlist, old(names), bytes, bytes);
        assert NameOf(names, h) == bytes;
        FirstMatchExists(evlist, old(names), bytes);
      } else {
        FirstMatchSound(evlist, names, bytes);
      }
    }

    /** Read and intern the from-name, then the to-name, of the event whose
     *  header announced the given lengths; a name whose bytes cannot be read
     *  fails the whole event. */
    method ReceiveNames(fromLength: int, toLength: int, inc: Incoming, evlist: seq<Event>)
      returns (ok: bool, fromH: Handle, toH: Handle)
      requires Interned(evlist, names) && MaxHandle(evlist) <= |names|
      modifies this`names
      ensures ok <==>
        (fromLength > 0 ==> inc.fromBytes.Some? && |inc.fromBytes.value| >= fromLength) &&
        (toLength > 0 ==> inc.toBytes.Some? && |inc.toBytes.value| >= toLength)
      ensures old(names) <= names && |names| <= |old(names)| + 2
      ensures ok ==> fromH <= |names| && toH <= |names|
      ensures ok ==> SlotInterned(evlist, names, fromLength, fromH) && SlotInterned(evlist, names, toLength, toH)
      ensures ok ==> NameReceived(names, fromLength, fromH, inc.fromBytes) && NameReceived(names, toLength, toH, inc.toBytes)
      ensures Interned(evlist, names) && MaxHandle(evlist) <= |names|
    {
      fromH, toH := 0, 0;
      if fromLength > 0 {
        if inc.fromBytes.None? || |inc.fromBytes.value| < fromLength {
          return false, fromH, toH;
        }
        fromH := InternName(fromLength, inc.fromBytes.value[..fromLength], evlist);
      }
      var names1 := names;
      assert old(names) <= names1;
      InternedKeep(evlist, old(names), names1);
      if toLength > 0 {
        if inc.toBytes.None? || |inc.toBytes.value| < toLength {
          return false, fromH, toH;
        }
        toH := InternName(toLength, inc.toBytes.value[..toLength], evlist);
        if |names| > |names1| {
          assert names == names1 + [names[|names| - 1]];
          SlotInternedGrow(evlist, names1, names[|names| - 1], fromLength, fromH);
        }
        assert NameOf(names, fromH) == NameOf(names1, fromH);
      }
      InternedKeep(evlist, old(names), names);
      ok := true;
    }

    /**
     * get_next_event after the request: classify the reply, and for an event
     * header let AcceptEvent do the rest.  A header with fewer than eight
     * integers has still overwritten the position globals as far as sscanf
     * got.
     */
    method GetNextEvent(inc: Incoming, overflowAllowed: bool, mallocOk: bool,
                        evlist: seq<Event>, kindOf: int -> EventType, typeOf: int -> FileType)
      returns (res: EvResult, ev: Event)
      requires Valid()
      requires Interned(evlist, names) && MaxHandle(evlist) <= |names|
      modifies this
      ensures Valid()
      ensures inc.transport.Failed? ==> res == EvSysErr
      ensures inc.transport.Interrupted? ==> res == EvSignal
      ensures !inc.transport.Delivered? ==> unchanged(this)
      ensures inc.transport.Delivered? && ClassifyReply(inc.transport.reply).Timeout? ==>
        res == EvTimeout && unchanged(this)
      ensures inc.transport.Delivered? && ClassifyReply(inc.transport.reply).TooBig? ==>
        res == EvTooBig && unchanged(this)
      ensures inc.transport.Delivered? && ClassifyReply(inc.transport.reply).BadReply? ==>
        res == EvSysErr && unchanged(this)
      ensures inc.transport.Delivered? && ClassifyReply(inc.transport.reply).BadEvent? ==>
        var scanned := ClassifyReply(inc.transport.reply).scanned;
        res == EvSysErr && evstart == old(evstart) && evspace == old(evspace) &&
        fnum == (if |scanned| >= 1 then scanned[0] else old(fnum)) &&
        fpos == (if |scanned| >= 2 then scanned[1] else old(fpos))
      ensures inc.transport.Delivered? && ClassifyReply(inc.transport.reply).EventHeader? ==>
        var f := ClassifyReply(inc.transport.reply).fields;
        fnum == f[0] && fpos == f[1] &&
        (res == EvOk ==>
          ev.kind == kindOf(f[2]) && ev.fileType == typeOf(f[3]) && ev.statValid == (f[4] != 0) &&
          ev.fromLength == f[6] && ev.toLength == f[7])
      ensures res == EvOk ==> inc.transport.Delivered? && ClassifyReply(inc.transport.reply).EventHeader?
      ensures res == EvOk ==> Interned(evlist + [ev], names) && MaxHandle(evlist + [ev]) <= |names|
      ensures res == EvOk ==>
        NameReceived(names, ev.fromLength, ev.from, inc.fromBytes) && NameReceived(names, ev.toLength, ev.to, inc.toBytes)
      ensures eventCount == old(eventCount) + (if res == EvOk then 1 else 0)
      ensures evstart - old(evstart) == old(evspace) - evspace
      ensures old(names) <= names
    {
      ev := Event(Create, Unknown, false, 0, 0, 0, 0, Stat(0, 0, 0, 0, 0, 0));
      match inc.transport {
        case Failed => return EvSysErr, ev;
        case Interrupted => return EvSignal, ev;
        case Delivered(reply) =>
          res, ev := HandleReply(ClassifyReply(reply), inc, overflowAllowed, mallocOk, evlist, kindOf, typeOf);
      }
    }

    /** get_next_event once the reply line is classified. */
    method HandleReply(kind: ReplyKind, inc: Incoming, overflowAllowed: bool, mallocOk: bool,
                       evlist: seq<Event>, kindOf: int -> EventType, typeOf: int -> FileType)
      returns (res: EvResult, ev: Event)
      requires Valid()
      requires kind.EventHeader? ==> |kind.fields| == 8
      requires Interned(evlist, names) && MaxHandle(evlist) <= |names|
      modifies this
      ensures Valid()
      ensures kind.Timeout? ==> res == EvTimeout && unchanged(this)
      ensures kind.TooBig? ==> res == EvTooBig && unchanged(this)
      ensures kind.BadReply? ==> res == EvSysErr && unchanged(this)
      ensures kind.BadEvent? ==>
        res == EvSysErr && evstart == old(evstart) && evspace == old(evspace) &&
        fnum == (if |kind.scanned| >= 1 then kind.scanned[0] else old(fnum)) &&
        fpos == (if |kind.scanned| >= 2 then kind.scanned[1] else old(fpos))
      ensures kind.EventHeader? ==>
        var f := kind.fields;
        fnum == f[0] && fpos == f[1] &&
        (res == EvOk ==>
          ev.kind == kindOf(f[2]) && ev.fileType == typeOf(f[3]) && ev.statValid == (f[4] != 0) &&
          ev.fromLength == f[6] && ev.toLength == f[7])
      ensures res == EvOk ==> kind.EventHeader?
      ensures res == EvOk ==> Interned(evlist + [ev], names) && MaxHandle(evlist + [ev]) <= |names|
      ensures res == EvOk ==>
        NameReceived(names, ev.fromLength, ev.from, inc.fromBytes) && NameReceived(names, ev.toLength, ev.to, inc.toBytes)
      ensures eventCount == old(eventCount) + (if res == EvOk then 1 else 0)
      ensures evstart - old(evstart) == old(evspace) - evspace
      ensures old(names) <= names
    {
      ev := Event(Create, Unknown, false, 0, 0, 0, 0, Stat(0, 0, 0, 0, 0, 0));
      match kind {
        case Timeout => return EvTimeout, ev;
        case TooBig => return EvTooBig, ev;
        case BadReply => return EvSysErr, ev;
        case BadEvent(scanned) =>
          if |scanned| >= 1 { fnum := scanned[0]; }
          if |scanned| >= 2 { fpos := scanned[1]; }
          return EvSysErr, ev;
        case EventHeader(f) =>
          res, ev := AcceptEvent(f, inc, overflowAllowed, mallocOk, evlist, kindOf, typeOf);
      }
    }

    /**
     * An event header of eight integers: overwrite the position globals,
     * reserve room for the names in the arena (or the overflow buffer), read
     * and intern the names, check the stat and mtime lines, and count the
     * event.  The event-type and file-type codes are decoded by enumerations
     * of a header that is not part of this model, passed here as kindOf and
     * typeOf.  The arena moves by the names' full size, interned or not.
     */
    method AcceptEvent(f: seq<int>, inc: Incoming, overflowAllowed: bool, mallocOk: bool,
                       evlist: seq<Event>, kindOf: int -> EventType, typeOf: int -> FileType)
      returns (res: EvResult, ev: Event)
      requires |f| == 8 && Valid()
      requires Interned(evlist, names) && MaxHandle(evlist) <= |names|
      modifies this
      ensures Valid()
      ensures fnum == f[0] && fpos == f[1]
      ensures res == EvOk || res == EvSysErr || res == EvTooBig
      ensures res == EvTooBig <==> NameSpace(f[6], f[7]) > old(evspace) && !overflowAllowed
      ensures NameSpace(f[6], f[7]) > old(evspace) && overflowAllowed && !mallocOk ==> res == EvSysErr
      ensures overflowed == (old(overflowed) || (NameSpace(f[6], f[7]) > old(evspace) && overflowAllowed && mallocOk))
      ensures res == EvOk ==>
        ev.kind == kindOf(f[2]) && ev.fileType == typeOf(f[3]) && ev.statValid == (f[4] != 0) &&
        ev.fromLength == f[6] && ev.toLength == f[7] &&
        Some(ev) == BuildEvent(f, ev.from, ev.to, inc, kindOf, typeOf)
      ensures res == EvOk ==> Interned(evlist + [ev], names) && MaxHandle(evlist + [ev]) <= |names|
      ensures res == EvOk ==>
        NameReceived(names, ev.fromLength, ev.from, inc.fromBytes) && NameReceived(names, ev.toLength, ev.to, inc.toBytes)
      ensures eventCount == old(eventCount) + (if res == EvOk then 1 else 0)
      ensures evstart - old(evstart) == old(evspace) - evspace
      ensures NameSpace(f[6], f[7]) <= old(evspace) ==>
        evstart == old(evstart) + NameSpace(f[6], f[7])
      ensures NameSpace(f[6], f[7]) > old(evspace) ==> evstart == old(evstart)
      ensures old(names) <= names
    {
      ev := Event(Create, Unknown, false, 0, 0, 0, 0, Stat(0, 0, 0, 0, 0, 0));
      fnum, fpos := f[0], f[1];
      var fromLength, toLength := f[6], f[7];
      var need := NameSpace(fromLength, toLength);
      var where := Reserve(need, overflowAllowed, mallocOk);
      assert overflowed == (old(overflowed) || (need > old(evspace) && overflowAllowed && mallocOk));
      assert need <= old(evspace) ==> evstart == old(evstart) + need;
      assert need > old(evspace) ==> evstart == old(evstart);
      if where == NoRoom {
        return EvTooBig, ev;
      }
      if where == NoMemory {
        return EvSysErr, ev;
      }
      res, ev := TakeEvent(f, inc, evlist, kindOf, typeOf);
    }

    /** The part of get_next_event after the space check: the names, the
     *  stat and mtime lines, and the event count. */
    method TakeEvent(f: seq<int>, inc: Incoming, evlist: seq<Event>,
                     kindOf: int -> EventType, typeOf: int -> FileType)
      returns (res: EvResult, ev: Event)
      requires |f| == 8
      requires Interned(evlist, names) && MaxHandle(evlist) <= |names|
      modifies this`names, this`eventCount
      ensures res == EvOk || res == EvSysErr
      ensures res == EvOk ==>
        ev.fromLength == f[6] && ev.toLength == f[7] &&
        Some(ev) == BuildEvent(f, ev.from, ev.to, inc, kindOf, typeOf)
      ensures res == EvOk ==> Interned(evlist + [ev], names) && MaxHandle(evlist + [ev]) <= |names|
      ensures res == EvOk ==>
        NameReceived(names, ev.fromLength, ev.from, inc.fromBytes) && NameReceived(names, ev.toLength, ev.to, inc.toBytes)
      ensures eventCount == old(eventCount) + (if res == EvOk then 1 else 0)
      ensures old(names) <= names
    {
      ev := Event(Create, Unknown, false, 0, 0, 0, 0, Stat(0, 0, 0, 0, 0, 0));
      var namesOk, fromH, toH := ReceiveNames(f[6], f[7], inc, evlist);
      if !namesOk {
        return EvSysErr, ev;
      }
      var built := BuildEvent(f, fromH, toH, inc, kindOf, typeOf);
      if built.None? {
        return EvSysErr, ev;
      }
      ev := built.value;
      eventCount := eventCount + 1;
      InternedAppend(evlist, names, ev);
      MaxHandleAppend(evlist, ev, |names|);
      res := EvOk;
    }
  }

  /** The event a header, its interned names and its STAT/NSTAT and MTIME
   *  lines make; None when a line that the header announces does not parse. */
  function BuildEvent(f: seq<int>, fromH: Handle, toH: Handle, inc: Incoming,
                      kindOf: int -> EventType, typeOf: int -> FileType): (r: Option<Event>)
    requires |f| == 8
    ensures r.Some? <==> (f[4] != 0 ==> inc.stat.Some?) && (f[5] != 0 ==> inc.mtime.Some?)
    ensures r.Some? ==>
      var ev := r.value;
      ev.kind == kindOf(f[2]) && ev.fileType == typeOf(f[3]) && ev.statValid == (f[4] != 0) &&
      ev.from == fromH && ev.fromLength == f[6] && ev.to == toH && ev.toLength == f[7] &&
      (f[4] != 0 ==> ev.stat.mode == inc.stat.value.mode && ev.stat.user == inc.stat.value.user &&
                     ev.stat.group == inc.stat.value.group && ev.stat.size == inc.stat.value.size) &&
      (f[5] != 0 ==> ev.stat.mtime == inc.mtime.value) &&
      (f[4] != 0 && f[5] == 0 ==> ev.stat.mtime == inc.stat.value.mtime)
  {
    if f[4] != 0 && inc.stat.None? then None
    else if f[5] != 0 && inc.mtime.None? then None
    else
      var st := if f[4] != 0 then inc.stat.value else Stat(0, 0, 0, 0, 0, 0);
      var st' := if f[5] != 0 then st.(mtime := inc.mtime.value) else st;
      Some(Event(kindOf(f[2]), typeOf(f[3]), f[4] != 0, fromH, f[6], toH, f[7], st'))
  }

  /** The batch stays interned while the table grows by up to two strings. */
  lemma InternedKeep(evs: seq<Event>, n0: seq<string>, n2: seq<string>)
    requires Interned(evs, n0) && MaxHandle(evs) <= |n0|
    requires n0 <= n2 && |n2| <= |n0| + 2
    ensures Interned(evs, n2)
  {
    if |n2| > |n0| {
      var n1 := n0 + [n2[|n0|]];
      InternedGrow(evs, n0, n2[|n0|]);
      if |n2| > |n1| {
        InternedGrow(evs, n1, n2[|n1|]);
        assert n2 == n1 + [n2[|n1|]];
      } else {
        assert n2 == n1;
      }
    } else {
      assert n2 == n0;
    }
  }

  lemma MaxHandleAppend(evs: seq<Event>, e: Event, m: nat)
    requires MaxHandle(evs) <= m && e.from <= m && e.to <= m
    ensures MaxHandle(evs + [e]) <= m
  {
    var evs' := evs + [e];
    forall k | 0 <= k < |evs'|
      ensures evs'[k].from <= m && evs'[k].to <= m
    {
      if k < |evs| { assert evs'[k] == evs[k]; }
    }
    MaxHandleBound(evs', m);
  }
}
