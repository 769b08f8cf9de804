/**
 * The batch optimiser of the copy thread: before a batch of events is
 * applied, events that a later delete, rename or repeat makes pointless
 * are invalidated, and renames are moved to the front with the earlier
 * events rewritten to name the rename's destination.
 *
 * The batch is two arrays, as in the source: the events and their valid
 * flags.  Names are compared by handle (see Events.Interned).  Each method
 * is proved against a recursive function that follows its loop step by
 * step; the lemmas then say what those functions do.
 */
module Optimise {
  import opened Types
  import opened Events

  /** The contents of the two arrays. */
  datatype Batch = Batch(evs: seq<Event>, valid: seq<bool>)

  // ---------------------------------------------------------------------
  // delete_events

  /**
   * The valid flags after delete_events scans indices n-1 down to 0 for
   * events about `name`: a valid non-rename event about it is invalidated;
   * a rename to it is invalidated after its own source has been deleted
   * from the events before it; a rename from it stops the scan.
   */
  function DeleteFrom(evs: seq<Event>, valid: seq<bool>, n: nat, name: Handle): (r: seq<bool>)
    requires n <= |evs| && n <= |valid|
    ensures |r| == |valid|
    ensures forall k :: n <= k < |valid| ==> r[k] == valid[k]
    ensures forall k :: 0 <= k < |valid| && r[k] ==> valid[k]
    decreases n
  {
    if n == 0 then valid
    else
      var e := n - 1;
      if !valid[e] then DeleteFrom(evs, valid, e, name)
      else if evs[e].kind == Rename then
        var v1 := if evs[e].to == name then DeleteFrom(evs, valid, e, evs[e].from)[e := false] else valid;
        if evs[e].from == name then v1 else DeleteFrom(evs, v1, e, name)
      else
        DeleteFrom(evs, if evs[e].from == name then valid[e := false] else valid, e, name)
  }

  /** delete_events, with the scan ending at index 0. */
  method DeleteEvents(evcount: int, evlist: array<Event>, valid: array<bool>, name: Handle)
    requires 0 <= evcount <= evlist.Length && evcount <= valid.Length
    modifies valid
    ensures valid[..] == DeleteFrom(evlist[..], old(valid[..]), evcount, name)
    decreases evcount
  {
    var e := evcount;
    while e > 0
      invariant 0 <= e <= evcount
      invariant DeleteFrom(evlist[..], old(valid[..]), evcount, name) == DeleteFrom(evlist[..], valid[..], e, name)
    {
      e := e - 1;
      if !valid[e] {
        continue;
      }
      if evlist[e].kind == Rename {
        if evlist[e].to == name {
          DeleteEvents(e, evlist, valid, evlist[e].from);
          valid[e] := false;
        }
        if evlist[e].from == name {
          return;
        }
      }
      if evlist[e].from == name {
        valid[e] := false;
      }
    }
  }

  /** A rename of `name` (to it or from it) among the valid events. */
  predicate RenameOf(evs: seq<Event>, valid: seq<bool>, k: nat, name: Handle)
    requires k < |evs| && k < |valid|
  {
    valid[k] && evs[k].kind == Rename && (evs[k].from == name || evs[k].to == name)
  }

  /** Whether delete_events removes event k on its own account: a valid
   *  event other than a rename, about `name`. */
  predicate Doomed(evs: seq<Event>, valid: seq<bool>, k: nat, name: Handle)
    requires k < |evs| && k < |valid|
  {
    valid[k] && evs[k].kind != Rename && evs[k].from == name
  }

  /**
   * Where no rename of `name` is in the way, delete_events invalidates
   * exactly the valid non-rename events about `name` and keeps the rest.
   */
  lemma {:induction false} DeleteWithoutRenames(evs: seq<Event>, valid: seq<bool>, n: nat, name: Handle)
    requires n <= |evs| && n <= |valid|
    requires forall k :: 0 <= k < n ==> !RenameOf(evs, valid, k, name)
    ensures var r := DeleteFrom(evs, valid, n, name);
      forall k :: 0 <= k < n ==> r[k] == (valid[k] && !Doomed(evs, valid, k, name))
    decreases n
  {
    if n > 0 {
      var e := n - 1;
      var v1 := if Doomed(evs, valid, e, name) then valid[e := false] else valid;
      assert forall k :: 0 <= k < e ==> v1[k] == valid[k];
      assert forall k :: 0 <= k < e ==> RenameOf(evs, v1, k, name) == RenameOf(evs, valid, k, name);
      assert !RenameOf(evs, valid, e, name);
      assert DeleteFrom(evs, valid, n, name) == DeleteFrom(evs, v1, e, name);
      DeleteWithoutRenames(evs, v1, e, name);
      assert forall k :: 0 <= k < e ==> Doomed(evs, v1, k, name) == Doomed(evs, valid, k, name);
    }
  }

  /**
   * A valid rename from `name` at index s ends the scan there: events below
   * it are kept, and above it the rule of DeleteWithoutRenames applies.
   */
  lemma {:induction false} DeleteStopsAtRenameFrom(evs: seq<Event>, valid: seq<bool>, n: nat, name: Handle, s: nat)
    requires n <= |evs| && n <= |valid| && s < n
    requires valid[s] && evs[s].kind == Rename && evs[s].from == name && evs[s].to != name
    requires forall k :: s < k < n ==> !RenameOf(evs, valid, k, name)
    ensures var r := DeleteFrom(evs, valid, n, name);
      (forall k :: 0 <= k <= s ==> r[k] == valid[k]) &&
      (forall k :: s < k < n ==> r[k] == (valid[k] && !Doomed(evs, valid, k, name)))
    decreases n
  {
    var e := n - 1;
    if e > s {
      var v1 := if Doomed(evs, valid, e, name) then valid[e := false] else valid;
      assert forall k :: 0 <= k < e ==> v1[k] == valid[k];
      assert forall k :: s < k < e ==> RenameOf(evs, v1, k, name) == RenameOf(evs, valid, k, name);
      assert !RenameOf(evs, valid, e, name);
      assert DeleteFrom(evs, valid, n, name) == DeleteFrom(evs, v1, e, name);
      DeleteStopsAtRenameFrom(evs, v1, e, name, s);
      assert forall k :: s < k < e ==> Doomed(evs, v1, k, name) == Doomed(evs, valid, k, name);
    }
  }

  /** Changing a flag at or above n does not change how delete_events
   *  treats the slots below n. */
  lemma {:induction false} DeleteFromUpdateAbove(evs: seq<Event>, v: seq<bool>, n: nat, name: Handle, i: nat, x: bool)
    requires n <= |evs| && n <= |v| && n <= i < |v|
    ensures DeleteFrom(evs, v[i := x], n, name) == DeleteFrom(evs, v, n, name)[i := x]
    decreases n
  {
    if n > 0 {
      var e := n - 1;
      var w := v[i := x];
      assert w[e] == v[e];
      if !v[e] {
        DeleteFromUpdateAbove(evs, v, e, name, i, x);
      } else if evs[e].kind == Rename {
        var v1 := if evs[e].to == name then DeleteFrom(evs, v, e, evs[e].from)[e := false] else v;
        var w1 := if evs[e].to == name then DeleteFrom(evs, w, e, evs[e].from)[e := false] else w;
        if evs[e].to == name {
          DeleteFromUpdateAbove(evs, v, e, evs[e].from, i, x);
          var a := DeleteFrom(evs, v, e, evs[e].from);
          assert a[i := x][e := false] == a[e := false][i := x];
        }
        assert w1 == v1[i := x];
        if evs[e].from != name {
          DeleteFromUpdateAbove(evs, v1, e, name, i, x);
        }
      } else {
        var v1 := if evs[e].from == name then v[e := false] else v;
        assert (if evs[e].from == name then w[e := false] else w) == v1[i := x];
        DeleteFromUpdateAbove(evs, v1, e, name, i, x);
      }
    }
  }

  /** Changing an event at or above n does not change delete_events below n. */
  lemma {:induction false} DeleteFromEventAbove(evs: seq<Event>, v: seq<bool>, n: nat, name: Handle, i: nat, x: Event)
    requires n <= |evs| && n <= |v| && n <= i < |evs|
    ensures DeleteFrom(evs[i := x], v, n, name) == DeleteFrom(evs, v, n, name)
    decreases n
  {
    if n > 0 {
      var e := n - 1;
      assert evs[i := x][e] == evs[e];
      if v[e] && evs[e].kind == Rename {
        if evs[e].to == name {
          DeleteFromEventAbove(evs, v, e, evs[e].from, i, x);
        }
        var v1 := if evs[e].to == name then DeleteFrom(evs, v, e, evs[e].from)[e := false] else v;
        if evs[e].from != name {
          DeleteFromEventAbove(evs, v1, e, name, i, x);
        }
      } else if v[e] {
        DeleteFromEventAbove(evs, if evs[e].from == name then v[e := false] else v, e, name, i, x);
      } else {
        DeleteFromEventAbove(evs, v, e, name, i, x);
      }
    }
  }

  /**
   * A valid rename onto `name` at index s, from another name: delete_events
   * clears it, and first deletes the rename's source from the events below
   * it (they would be renamed and then deleted); then it goes on deleting
   * `name` below s.  Above s, the rule of DeleteWithoutRenames applies.
   */
  lemma {:induction false} DeleteThroughRenameTo(evs: seq<Event>, valid: seq<bool>, n: nat, name: Handle, s: nat)
    requires n <= |evs| && n <= |valid| && s < n
    requires valid[s] && evs[s].kind == Rename && evs[s].to == name && evs[s].from != name
    requires forall k :: s < k < n ==> !RenameOf(evs, valid, k, name)
    ensures var r := DeleteFrom(evs, valid, n, name);
      !r[s] &&
      (forall k :: s < k < n ==> r[k] == (valid[k] && !Doomed(evs, valid, k, name))) &&
      (forall k :: 0 <= k < s ==> r[k] == DeleteFrom(evs, DeleteFrom(evs, valid, s, evs[s].from), s, name)[k])
    decreases n
  {
    var e := n - 1;
    if e > s {
      var v1 := if Doomed(evs, valid, e, name) then valid[e := false] else valid;
      assert forall k :: 0 <= k < e ==> v1[k] == valid[k];
      assert forall k :: s < k < e ==> RenameOf(evs, v1, k, name) == RenameOf(evs, valid, k, name);
      assert !RenameOf(evs, valid, e, name);
      assert DeleteFrom(evs, valid, n, name) == DeleteFrom(evs, v1, e, name);
      DeleteThroughRenameTo(evs, v1, e, name, s);
      assert forall k :: s < k < e ==> Doomed(evs, v1, k, name) == Doomed(evs, valid, k, name);
      if Doomed(evs, valid, e, name) {
        DeleteFromUpdateAbove(evs, valid, s, evs[s].from, e, false);
        DeleteFromUpdateAbove(evs, DeleteFrom(evs, valid, s, evs[s].from), s, name, e, false);
      }
    } else {
      var d := DeleteFrom(evs, valid, s, evs[s].from);
      assert DeleteFrom(evs, valid, n, name) == DeleteFrom(evs, d[s := false], s, name);
      DeleteFromUpdateAbove(evs, d, s, name, s, false);
    }
  }

  // ---------------------------------------------------------------------
  // remove_duplicate_events

  /** The valid flags after remove_duplicate_events: no event below n of
   *  the same kind about the same name stays valid, nothing becomes valid,
   *  and n and everything above are kept. */
  function ClearDuplicates(evs: seq<Event>, valid: seq<bool>, n: nat, kind: EventType, name: Handle): (r: seq<bool>)
    requires n <= |evs| && n <= |valid|
    ensures |r| == |valid|
    ensures forall k :: 0 <= k < n && r[k] ==> !(evs[k].kind == kind && evs[k].from == name)
    ensures forall k :: 0 <= k < n && !(evs[k].kind == kind && evs[k].from == name) ==> r[k] == valid[k]
    ensures forall k :: 0 <= k < |valid| && r[k] ==> valid[k]
    ensures forall k :: n <= k < |valid| ==> r[k] == valid[k]
  {
    seq(|valid|, k requires 0 <= k < |valid| => valid[k] && !(k < n && evs[k].kind == kind && evs[k].from == name))
  }

  /** remove_duplicate_events, with the scan ending at index 0. */
  method RemoveDuplicateEvents(evcount: int, evlist: array<Event>, valid: array<bool>, kind: EventType, name: Handle)
    requires 0 <= evcount <= evlist.Length && evcount <= valid.Length
    modifies valid
    ensures valid[..] == ClearDuplicates(evlist[..], old(valid[..]), evcount, kind, name)
  {
    var e := evcount;
    while e > 0
      invariant 0 <= e <= evcount
      invariant forall k :: 0 <= k < valid.Length ==>
        valid[k] == (old(valid[k]) && !(e <= k < evcount && evlist[k].kind == kind && evlist[k].from == name))
    {
      e := e - 1;
      if !valid[e] {
        continue;
      }
      if evlist[e].kind != kind {
        continue;
      }
      if evlist[e].from != name {
        continue;
      }
      valid[e] := false;
    }
  }

  // ---------------------------------------------------------------------
  // rename_events

  /** The arrays and the rename being moved, between two rounds of the loop. */
  datatype RenameState = RenameState(b: Batch, rev: Event)

  /**
   * One round of the rename_events loop at slot e >= 1: the entry in slot
   * e-1 moves up to slot e.  An earlier rename onto the source of `rev`
   * (A -> B, then B -> C) becomes A -> C in its new slot, B is deleted from
   * the events before it, and `rev` now starts at A; an earlier non-rename
   * about the source now names the destination.
   */
  function RenameRound(b: Batch, e: nat, rev: Event): (r: RenameState)
    requires 1 <= e < |b.evs| && e < |b.valid|
    ensures |r.b.evs| == |b.evs| && |r.b.valid| == |b.valid|
  {
    var j := e - 1;
    var evs1 := b.evs[e := b.evs[j]];
    var valid1 := b.valid[e := b.valid[j]];
    if !b.valid[j] then RenameState(Batch(evs1, valid1), rev)
    else if b.evs[j].kind == Rename then
      if b.evs[j].to == rev.from then
        RenameState(Batch(evs1[e := b.evs[j].(to := rev.to)], DeleteFrom(evs1, valid1, j, b.evs[j].to)),
                    rev.(from := b.evs[j].from))
      else RenameState(Batch(evs1, valid1), rev)
    else if b.evs[j].from == rev.from then
      RenameState(Batch(evs1[e := b.evs[j].(from := rev.to)], valid1), rev)
    else RenameState(Batch(evs1, valid1), rev)
  }
  /** The slots one round touches: slot e takes what slot e-1 held (its
   *  kind and valid flag; the names change only for the source of `rev`),
   *  slot e-1 keeps its entry, earlier slots only lose validity, later
   *  slots are untouched; without a chain onto the source nothing else
   *  changes. */
  lemma RenameRoundShape(b: Batch, e: nat, rev: Event)
    requires 1 <= e < |b.evs| && e < |b.valid|
    ensures var r := RenameRound(b, e, rev);
      r.b.valid[e] == b.valid[e - 1] && r.b.evs[e].kind == b.evs[e - 1].kind &&
      r.b.valid[e - 1] == b.valid[e - 1] && r.b.evs[e - 1] == b.evs[e - 1] &&
      (forall k :: 0 <= k < e - 1 ==> r.b.evs[k] == b.evs[k] && (r.b.valid[k] ==> b.valid[k])) &&
      (forall k :: e < k < |b.evs| ==> r.b.evs[k] == b.evs[k]) &&
      (forall k :: e < k < |b.valid| ==> r.b.valid[k] == b.valid[k]) &&
      r.rev.kind == rev.kind && r.rev.to == rev.to
    ensures var r := RenameRound(b, e, rev);
      !(b.valid[e - 1] && b.evs[e - 1].kind == Rename && b.evs[e - 1].to == rev.from) ==>
        r.rev == rev && r.b.valid == b.valid[e := b.valid[e - 1]] &&
        r.b.evs == b.evs[e := Moved(b.evs[e - 1], b.valid[e - 1], rev)]
  {
  }


  /** The arrays after rename_events has run its loop from slot e down with
   *  `rev` the rename being moved, which ends up in slot 0, valid. */
  function RenameFrom(b: Batch, e: nat, rev: Event): (r: Batch)
    requires e < |b.evs| && e < |b.valid|
    ensures |r.evs| == |b.evs| && |r.valid| == |b.valid|
    decreases e
  {
    if e == 0 then Batch(b.evs[0 := rev], b.valid[0 := true])
    else
      var next := RenameRound(b, e, rev);
      RenameFrom(next.b, e - 1, next.rev)
  }

  /** rename_events for the rename at index n. */
  function RenameAt(b: Batch, n: nat): Batch
    requires n < |b.evs| && n < |b.valid|
  {
    RenameFrom(b, n, b.evs[n])
  }

  /** One round of the rename_events loop, on the arrays. */
  method RenameStep(e: nat, evlist: array<Event>, valid: array<bool>, rev: Event) returns (rev': Event)
    requires 1 <= e < evlist.Length && e < valid.Length
    modifies evlist, valid
    ensures var next := RenameRound(Batch(old(evlist[..]), old(valid[..])), e, rev);
      evlist[..] == next.b.evs && valid[..] == next.b.valid && rev' == next.rev
  {
    ghost var cur := Batch(evlist[..], valid[..]);
    var j := e - 1;
    valid[e] := valid[j];
    evlist[e] := evlist[j];
    rev' := rev;
    ghost var evs1 := cur.evs[e := cur.evs[j]];
    ghost var valid1 := cur.valid[e := cur.valid[j]];
    assert evlist[..] == evs1 && valid[..] == valid1;
    if valid[j] {
      if evlist[j].kind == Rename {
        if evlist[j].to == rev.from {
          var name := evlist[j].to;
          DeleteEvents(j, evlist, valid, name);
          assert valid[..] == DeleteFrom(evs1, valid1, j, name);
          evlist[e] := evlist[e].(to := rev.to);
          rev' := rev.(from := evlist[j].from);
          assert evlist[..] == evs1[e := cur.evs[j].(to := rev.to)];
        }
      } else {
        if evlist[j].from == rev.from {
          evlist[e] := evlist[e].(from := rev.to);
          assert evlist[..] == evs1[e := cur.evs[j].(from := rev.to)];
        }
      }
    }
  }

    /** rename_events. */
  method RenameEvents(evcount: int, evlist: array<Event>, valid: array<bool>)
    requires 0 <= evcount < evlist.Length && evcount < valid.Length
    modifies evlist, valid
    ensures Batch(evlist[..], valid[..]) == RenameAt(Batch(old(evlist[..]), old(valid[..])), evcount)
  {
    var rev := evlist[evcount];
    var e := evcount;
    ghost var target := RenameFrom(Batch(evlist[..], valid[..]), e, rev);
    assert target == RenameAt(Batch(old(evlist[..]), old(valid[..])), evcount);
    while e > 0
      invariant 0 <= e <= evcount
      invariant target == RenameFrom(Batch(evlist[..], valid[..]), e, rev)
    {
      ghost var next := RenameRound(Batch(evlist[..], valid[..]), e, rev);
      rev := RenameStep(e, evlist, valid, rev);
      assert Batch(evlist[..], valid[..]) == next.b;
      e := e - 1;
    }
    ghost var last := Batch(evlist[..], valid[..]);
    assert target == Batch(last.evs[0 := rev], last.valid[0 := true]);
    valid[0] := true;
    evlist[0] := rev;
    assert evlist[..] == last.evs[0 := rev] && valid[..] == last.valid[0 := true];
  }

  /** Where an earlier valid non-rename about the rename's source ends up:
   *  renamed to the destination; everything else moves unchanged. */
  function Moved(ev: Event, v: bool, rev: Event): Event
  {
    if v && ev.kind != Rename && ev.from == rev.from then ev.(from := rev.to) else ev
  }

  /** The arrays rename_events leaves behind from slot e down when no
   *  rename chains onto `rev`: see RenameFromWithoutChain. */
  ghost predicate MovedUp(r: Batch, c: Batch, e: nat, rev: Event)
    requires e < |c.evs| && e < |c.valid| && |r.evs| == |c.evs| && |r.valid| == |c.valid|
  {
    r.evs[0] == rev && r.valid[0] &&
    (forall k :: 1 <= k <= e ==> r.valid[k] == c.valid[k - 1] && r.evs[k] == Moved(c.evs[k - 1], c.valid[k - 1], rev)) &&
    (forall k :: e < k < |c.evs| ==> r.evs[k] == c.evs[k]) &&
    (forall k :: e < k < |c.valid| ==> r.valid[k] == c.valid[k])
  }

  lemma MovedUpCompose(c: Batch, nb: Batch, r: Batch, e: nat, rev: Event)
    requires 1 <= e < |c.evs| && e < |c.valid| && |r.evs| == |c.evs| && |r.valid| == |c.valid|
    requires nb.valid == c.valid[e := c.valid[e - 1]]
    requires nb.evs == c.evs[e := Moved(c.evs[e - 1], c.valid[e - 1], rev)]
    requires MovedUp(r, nb, e - 1, rev)
    ensures MovedUp(r, c, e, rev)
  {
    forall k | 1 <= k <= e
      ensures r.valid[k] == c.valid[k - 1] && r.evs[k] == Moved(c.evs[k - 1], c.valid[k - 1], rev)
    {
      if k < e {
        assert nb.valid[k - 1] == c.valid[k - 1] && nb.evs[k - 1] == c.evs[k - 1];
      }
    }
  }

  /**
   * Without a valid earlier rename onto the source of `rev`, rename_events
   * moves every earlier event one slot up, redirects the events about the
   * source to the destination, keeps all valid flags, and puts `rev`
   * unchanged in slot 0.
   */
  lemma {:induction false} RenameFromWithoutChain(c: Batch, e: nat, rev: Event)
    requires e < |c.evs| && e < |c.valid|
    requires forall k :: 0 <= k < e ==> !(c.valid[k] && c.evs[k].kind == Rename && c.evs[k].to == rev.from)
    ensures MovedUp(RenameFrom(c, e, rev), c, e, rev)
    decreases e
  {
    if e > 0 {
      var next := RenameRound(c, e, rev);
      RenameRoundShape(c, e, rev);
      assert forall k :: 0 <= k < e - 1 ==> next.b.valid[k] == c.valid[k] && next.b.evs[k] == c.evs[k];
      RenameFromWithoutChain(next.b, e - 1, rev);
      MovedUpCompose(c, next.b, RenameFrom(c, e, rev), e, rev);
    }
  }

  lemma RenameWithoutChain(b: Batch, n: nat)
    requires n < |b.evs| && n < |b.valid|
    requires forall k :: 0 <= k < n ==> !(b.valid[k] && b.evs[k].kind == Rename && b.evs[k].to == b.evs[n].from)
    ensures var r := RenameAt(b, n);
      r.evs[0] == b.evs[n] && r.valid[0] &&
      (forall k :: 1 <= k <= n ==> r.valid[k] == b.valid[k - 1] && r.evs[k] == Moved(b.evs[k - 1], b.valid[k - 1], b.evs[n])) &&
      (forall k :: n < k < |b.evs| ==> r.evs[k] == b.evs[k]) &&
      (forall k :: n < k < |b.valid| ==> r.valid[k] == b.valid[k])
  {
    RenameFromWithoutChain(b, n, b.evs[n]);
  }

  /** The shape rename_events leaves behind from slot e down, whatever the
   *  chain: see RenameFromShifts. */
  ghost predicate Shifted(r: Batch, c: Batch, e: nat, rev: Event)
    requires e < |c.evs| && e < |c.valid| && |r.evs| == |c.evs| && |r.valid| == |c.valid|
  {
    r.valid[0] && r.evs[0].kind == rev.kind && r.evs[0].to == rev.to &&
    (forall k :: 1 <= k <= e ==> (r.valid[k] ==> c.valid[k - 1]) && r.evs[k].kind == c.evs[k - 1].kind) &&
    (forall k :: e < k < |c.evs| ==> r.evs[k] == c.evs[k]) &&
    (forall k :: e < k < |c.valid| ==> r.valid[k] == c.valid[k])
  }

  /** One round followed by the shape of the remaining rounds gives the
   *  shape of them all. */
  lemma ShiftedCompose(c: Batch, nb: Batch, nrev: Event, r: Batch, e: nat, rev: Event)
    requires 1 <= e < |c.evs| && e < |c.valid|
    requires |nb.evs| == |c.evs| && |nb.valid| == |c.valid| && |r.evs| == |c.evs| && |r.valid| == |c.valid|
    requires nb.valid[e] == c.valid[e - 1] && nb.evs[e].kind == c.evs[e - 1].kind
    requires nb.valid[e - 1] == c.valid[e - 1] && nb.evs[e - 1] == c.evs[e - 1]
    requires forall k :: 0 <= k < e - 1 ==> nb.evs[k] == c.evs[k] && (nb.valid[k] ==> c.valid[k])
    requires forall k :: e < k < |c.evs| ==> nb.evs[k] == c.evs[k]
    requires forall k :: e < k < |c.valid| ==> nb.valid[k] == c.valid[k]
    requires nrev.kind == rev.kind && nrev.to == rev.to
    requires Shifted(r, nb, e - 1, nrev)
    ensures Shifted(r, c, e, rev)
  {
    forall k | 1 <= k <= e
      ensures (r.valid[k] ==> c.valid[k - 1]) && r.evs[k].kind == c.evs[k - 1].kind
    {
      if k < e {
        assert (nb.valid[k - 1] ==> c.valid[k - 1]) && nb.evs[k - 1] == c.evs[k - 1];
      }
    }
  }

  /**
   * Whatever the chain, rename_events only moves entries: slot 0 is valid
   * and holds a rename to the same destination; the entry in slot k (1..e)
   * came from slot k-1, has its kind, and is valid only if that one was;
   * entries above e are untouched.
   */
  lemma {:induction false} RenameFromShifts(c: Batch, e: nat, rev: Event)
    requires e < |c.evs| && e < |c.valid|
    ensures Shifted(RenameFrom(c, e, rev), c, e, rev)
    decreases e
  {
    if e > 0 {
      var next := RenameRound(c, e, rev);
      RenameRoundShape(c, e, rev);
      RenameFromShifts(next.b, e - 1, next.rev);
      ShiftedCompose(c, next.b, next.rev, RenameFrom(c, e, rev), e, rev);
    }
  }

  /**
   * The arrays rename_events leaves behind from slot e down when the valid
   * rename at slot j (X -> B) is onto the source B of `rev` (B -> C), and
   * nothing in between is: `rev` ends in slot 0 as X -> C; the old slot j
   * moves up to j+1 as X -> C and stays valid; the events between j and e
   * move up one as without a chain; the events below j move up one with
   * the flags delete_events leaves after deleting B below j, and those
   * about X now name C; slots above e are untouched.
   */
  ghost predicate ChainedUp(r: Batch, c: Batch, e: nat, j: nat, rev: Event)
    requires j < e < |c.evs| && e < |c.valid| && |r.evs| == |c.evs| && |r.valid| == |c.valid|
  {
    var rev' := rev.(from := c.evs[j].from);
    var v := DeleteFrom(c.evs, c.valid, j, c.evs[j].to);
    r.evs[0] == rev' && r.valid[0] &&
    r.evs[j + 1] == c.evs[j].(to := rev.to) && r.valid[j + 1] &&
    (forall k :: j + 2 <= k <= e ==> r.valid[k] == c.valid[k - 1] && r.evs[k] == Moved(c.evs[k - 1], c.valid[k - 1], rev)) &&
    (forall k :: 1 <= k <= j ==> r.valid[k] == v[k - 1] && r.evs[k] == Moved(c.evs[k - 1], v[k - 1], rev')) &&
    (forall k :: e < k < |c.evs| ==> r.evs[k] == c.evs[k]) &&
    (forall k :: e < k < |c.valid| ==> r.valid[k] == c.valid[k])
  }

  /** The round at the chain, followed by the chain-free rounds below it,
   *  gives ChainedUp. */
  lemma ChainStart(c: Batch, nb: Batch, r: Batch, j: nat, rev: Event)
    requires j + 1 < |c.evs| && j + 1 < |c.valid| && |r.evs| == |c.evs| && |r.valid| == |c.valid|
    requires c.valid[j] && c.evs[j].kind == Rename && c.evs[j].to == rev.from
    requires nb.evs == c.evs[j + 1 := c.evs[j]][j + 1 := c.evs[j].(to := rev.to)]
    requires nb.valid == DeleteFrom(c.evs[j + 1 := c.evs[j]], c.valid[j + 1 := c.valid[j]], j, c.evs[j].to)
    requires MovedUp(r, nb, j, rev.(from := c.evs[j].from))
    ensures ChainedUp(r, c, j + 1, j, rev)
  {
    var e := j + 1;
    var bname := c.evs[j].to;
    var valid1 := c.valid[e := c.valid[j]];
    DeleteFromEventAbove(c.evs, valid1, j, bname, e, c.evs[j]);
    DeleteFromUpdateAbove(c.evs, c.valid, j, bname, e, c.valid[j]);
    var v := DeleteFrom(c.evs, c.valid, j, bname);
    assert nb.valid == v[e := c.valid[j]];
    forall m | 0 <= m < j
      ensures nb.valid[m] == v[m] && nb.evs[m] == c.evs[m]
    {
    }
  }

  /** A chain-free round at slot e above the chain, followed by the rounds
   *  below it, gives ChainedUp from e. */
  lemma ChainCompose(c: Batch, nb: Batch, r: Batch, e: nat, j: nat, rev: Event)
    requires j + 1 < e < |c.evs| && e < |c.valid| && |r.evs| == |c.evs| && |r.valid| == |c.valid|
    requires nb.valid == c.valid[e := c.valid[e - 1]]
    requires nb.evs == c.evs[e := Moved(c.evs[e - 1], c.valid[e - 1], rev)]
    requires ChainedUp(r, nb, e - 1, j, rev)
    ensures ChainedUp(r, c, e, j, rev)
  {
    var bname := c.evs[j].to;
    assert nb.evs[j] == c.evs[j];
    DeleteFromEventAbove(c.evs, nb.valid, j, bname, e, Moved(c.evs[e - 1], c.valid[e - 1], rev));
    DeleteFromUpdateAbove(c.evs, c.valid, j, bname, e, c.valid[e - 1]);
    var v := DeleteFrom(c.evs, c.valid, j, bname);
    assert DeleteFrom(nb.evs, nb.valid, j, bname) == v[e := c.valid[e - 1]];
    forall m | 0 <= m < e - 1
      ensures nb.valid[m] == c.valid[m] && nb.evs[m] == c.evs[m]
    {
    }
  }

  /** The rounds of rename_events from slot e down, through the chain at
   *  slot j: see ChainedUp. */
  lemma {:induction false} RenameFromChain(c: Batch, e: nat, rev: Event, j: nat)
    requires j < e < |c.evs| && e < |c.valid|
    requires c.valid[j] && c.evs[j].kind == Rename && c.evs[j].to == rev.from
    requires forall k :: j < k < e ==> !(c.valid[k] && c.evs[k].kind == Rename && c.evs[k].to == rev.from)
    requires forall k :: 0 <= k < j ==> !(c.valid[k] && c.evs[k].kind == Rename && c.evs[k].to == c.evs[j].from)
    ensures ChainedUp(RenameFrom(c, e, rev), c, e, j, rev)
    decreases e
  {
    var next := RenameRound(c, e, rev);
    if e == j + 1 {
      var rev' := rev.(from := c.evs[j].from);
      assert next.rev == rev';
      assert forall k :: 0 <= k < j ==> next.b.evs[k] == c.evs[k] && (next.b.valid[k] ==> c.valid[k]);
      RenameFromWithoutChain(next.b, j, rev');
      ChainStart(c, next.b, RenameFrom(c, e, rev), j, rev);
    } else {
      RenameRoundShape(c, e, rev);
      RenameFromChain(next.b, e - 1, rev, j);
      ChainCompose(c, next.b, RenameFrom(c, e, rev), e, j, rev);
    }
  }

  /**
   * rename_events for a rename B -> C at slot n when the latest valid
   * rename onto B before it is X -> B at slot j, and no valid rename onto X
   * comes before that: see ChainedUp.
   */
  lemma RenameWithChain(b: Batch, n: nat, j: nat)
    requires j < n < |b.evs| && n < |b.valid|
    requires b.valid[j] && b.evs[j].kind == Rename && b.evs[j].to == b.evs[n].from
    requires forall k :: j < k < n ==> !(b.valid[k] && b.evs[k].kind == Rename && b.evs[k].to == b.evs[n].from)
    requires forall k :: 0 <= k < j ==> !(b.valid[k] && b.evs[k].kind == Rename && b.evs[k].to == b.evs[j].from)
    ensures ChainedUp(RenameAt(b, n), b, n, j, b.evs[n])
  {
    RenameFromChain(b, n, b.evs[n], j);
  }

  /** A rename A -> B followed by B -> C: both slots end up holding A -> C,
   *  and both stay valid. */
  lemma RenameChainExample()
    ensures var st := Stat(0, 0, 0, 0, 0, 0);
      var ab := Event(Rename, Regular, false, 1, 1, 2, 1, st);
      var bc := Event(Rename, Regular, false, 2, 1, 3, 1, st);
      var ac := Event(Rename, Regular, false, 1, 1, 3, 1, st);
      RenameAt(Batch([ab, bc], [true, true]), 1) == Batch([ac, ac], [true, true])
  {
  }

  // ---------------------------------------------------------------------
  // optimise_events

  /** One step of optimise_events on the valid event at index n. */
  function OptimiseStep(b: Batch, n: nat): (r: Batch)
    requires n < |b.evs| && n < |b.valid|
    ensures |r.evs| == |b.evs| && |r.valid| == |b.valid|
  {
    var ev := b.evs[n];
    match ev.kind
    case Delete => Batch(b.evs, DeleteFrom(b.evs, b.valid, n, ev.from))
    case Rename => RenameAt(b, n)
    case Create => Batch(b.evs, ClearDuplicates(b.evs, b.valid, n, ev.kind, ev.from))
    case ChangeData => Batch(b.evs, ClearDuplicates(b.evs, b.valid, n, ev.kind, ev.from))
    case ChangeMeta => Batch(b.evs, ClearDuplicates(b.evs, b.valid, n, ev.kind, ev.from))
    case Overflow => b
    case NoSpace => b
    case AddTree => b
  }

  /** optimise_events from index evnum down to 1: each valid event in turn,
   *  as the arrays are at the time it is reached. */
  function OptimiseFrom(b: Batch, evnum: int): (r: Batch)
    requires evnum < |b.evs| && evnum < |b.valid|
    ensures |r.evs| == |b.evs| && |r.valid| == |b.valid|
    decreases evnum
  {
    if evnum <= 0 then b
    else if !b.valid[evnum] then OptimiseFrom(b, evnum - 1)
    else OptimiseFrom(OptimiseStep(b, evnum), evnum - 1)
  }

  /** The markers of optimise_events: events it leaves alone. */
  predicate Marker(e: Event)
  {
    e.kind == Overflow || e.kind == NoSpace || e.kind == AddTree
  }

  /** When every valid event from index 1 to evnum is an overflow, no-space
   *  or add-tree marker, the optimiser changes nothing, whatever event
   *  sits at index 0: it is never visited. */
  lemma {:induction false} MarkersUntouched(b: Batch, evnum: int)
    requires evnum < |b.evs| && evnum < |b.valid|
    requires forall k :: 1 <= k <= evnum && b.valid[k] ==> Marker(b.evs[k])
    ensures OptimiseFrom(b, evnum) == b
    decreases evnum
  {
    if evnum > 0 {
      MarkersUntouched(b, evnum - 1);
    }
  }

  /** A valid marker at slot n is passed over: the optimiser goes on at
   *  n-1 with the arrays as they are. */
  lemma MarkerSkipped(b: Batch, n: int)
    requires 1 <= n < |b.evs| && n < |b.valid|
    requires b.valid[n] && Marker(b.evs[n])
    ensures OptimiseFrom(b, n) == OptimiseFrom(b, n - 1)
  {
    assert OptimiseStep(b, n) == b;
  }

  /** optimise_events. */
  method OptimiseEvents(evcount: int, evlist: array<Event>, valid: array<bool>)
    requires 0 <= evcount <= evlist.Length && evcount <= valid.Length
    modifies evlist, valid
    ensures Batch(evlist[..], valid[..]) == OptimiseFrom(Batch(old(evlist[..]), old(valid[..])), evcount - 1)
  {
    var evnum := evcount - 1;
    while evnum > 0
      invariant evnum <= evcount - 1
      invariant OptimiseFrom(Batch(old(evlist[..]), old(valid[..])), evcount - 1) ==
                OptimiseFrom(Batch(evlist[..], valid[..]), evnum)
    {
      if valid[evnum] {
        ghost var before := Batch(evlist[..], valid[..]);
        match evlist[evnum].kind {
          case Delete =>
            DeleteEvents(evnum, evlist, valid, evlist[evnum].from);
          case Rename =>
            RenameEvents(evnum, evlist, valid);
          case Create =>
            RemoveDuplicateEvents(evnum, evlist, valid, evlist[evnum].kind, evlist[evnum].from);
          case ChangeData =>
            RemoveDuplicateEvents(evnum, evlist, valid, evlist[evnum].kind, evlist[evnum].from);
          case ChangeMeta =>
            RemoveDuplicateEvents(evnum, evlist, valid, evlist[evnum].kind, evlist[evnum].from);
          case Overflow =>
          case NoSpace =>
          case AddTree =>
        }
        assert Batch(evlist[..], valid[..]) == OptimiseStep(before, evnum);
      }
      evnum := evnum - 1;
    }
  }

  /** The number of valid flags set. */
  function CountValid(v: seq<bool>): (c: nat)
    ensures c <= |v|
  {
    if v == [] then 0 else (if v[0] then 1 else 0) + CountValid(v[1..])
  }

  lemma {:induction false} CountValidMonotone(a: seq<bool>, b: seq<bool>)
    requires |a| == |b|
    requires forall k :: 0 <= k < |a| && a[k] ==> b[k]
    ensures CountValid(a) <= CountValid(b)
  {
    if a != [] {
      CountValidMonotone(a[1..], b[1..]);
    }
  }

  lemma {:induction false} CountValidSplit(a: seq<bool>, m: nat)
    requires m <= |a|
    ensures CountValid(a) == CountValid(a[..m]) + CountValid(a[m..])
  {
    if m > 0 {
      assert a[1..][..m - 1] == a[..m][1..];
      assert a[1..][m - 1..] == a[m..];
      CountValidSplit(a[1..], m - 1);
    } else {
      assert a[..0] == [] && a[m..] == a;
    }
  }

  /** Moving the valid rename at n to the front does not add to the number
   *  of valid events in slots 0..n. */
  lemma RenamePrefixCount(b: Batch, n: nat)
    requires n < |b.evs| && n < |b.valid| && b.valid[n]
    ensures CountValid(RenameAt(b, n).valid[..n + 1]) <= CountValid(b.valid[..n + 1])
  {
    var r := RenameAt(b, n).valid;
    RenameFromShifts(b, n, b.evs[n]);
    CountValidMonotone(r[1..n + 1], b.valid[..n]);
    assert r[..n + 1][1..] == r[1..n + 1];
    CountValidSplit(b.valid[..n + 1], n);
    assert b.valid[..n + 1][..n] == b.valid[..n];
    assert b.valid[..n + 1][n..] == [b.valid[n]];
  }

  /** Two flag sequences that agree from m on, and whose first m flags
   *  count no more on the left, count no more on the left. */
  lemma CountValidPrefixBound(a: seq<bool>, b: seq<bool>, m: nat)
    requires |a| == |b| && m <= |a|
    requires CountValid(a[..m]) <= CountValid(b[..m]) && a[m..] == b[m..]
    ensures CountValid(a) <= CountValid(b)
  {
    CountValidSplit(a, m);
    CountValidSplit(b, m);
  }

  /** Moving the valid rename at n to the front does not add to the number
   *  of valid events below evcount. */
  lemma RenameKeepsCount(b: Batch, n: nat, evcount: nat)
    requires n < evcount <= |b.evs| && evcount <= |b.valid| && b.valid[n]
    ensures CountValid(RenameAt(b, n).valid[..evcount]) <= CountValid(b.valid[..evcount])
  {
    var r := RenameAt(b, n).valid;
    RenamePrefixCount(b, n);
    RenameFromShifts(b, n, b.evs[n]);
    assert r[..evcount][..n + 1] == r[..n + 1];
    assert b.valid[..evcount][..n + 1] == b.valid[..n + 1];
    assert r[..evcount][n + 1..] == b.valid[..evcount][n + 1..];
    CountValidPrefixBound(r[..evcount], b.valid[..evcount], n + 1);
  }

  /** One step of optimise_events does not add to the valid events below evcount. */
  lemma StepKeepsCount(b: Batch, n: nat, evcount: nat)
    requires n < evcount <= |b.evs| && evcount <= |b.valid| && b.valid[n]
    ensures CountValid(OptimiseStep(b, n).valid[..evcount]) <= CountValid(b.valid[..evcount])
  {
    var r := OptimiseStep(b, n);
    if b.evs[n].kind == Rename {
      RenameKeepsCount(b, n, evcount);
    } else {
      assert forall k :: 0 <= k < |b.valid| && r.valid[k] ==> b.valid[k];
      CountValidMonotone(r.valid[..evcount], b.valid[..evcount]);
    }
  }

  /** The optimiser never makes more events valid than there were. */
  lemma {:induction false} OptimiseKeepsCount(b: Batch, evnum: int, evcount: nat)
    requires evnum < evcount <= |b.evs| && evcount <= |b.valid|
    ensures CountValid(OptimiseFrom(b, evnum).valid[..evcount]) <= CountValid(b.valid[..evcount])
    decreases evnum
  {
    if evnum > 0 {
      if b.valid[evnum] {
        StepKeepsCount(b, evnum, evcount);
        OptimiseKeepsCount(OptimiseStep(b, evnum), evnum - 1, evcount);
      } else {
        OptimiseKeepsCount(b, evnum - 1, evcount);
      }
    }
  }

  /** A file created, renamed and then deleted needs only the delete. */
  lemma CreateRenameDeleteExample()
    ensures var st := Stat(0, 0, 0, 0, 0, 0);
      var create := Event(Create, Regular, true, 1, 1, 0, 0, st);
      var rename := Event(Rename, Regular, false, 1, 1, 2, 1, st);
      var delete := Event(Delete, Regular, false, 2, 1, 0, 0, st);
      OptimiseFrom(Batch([create, rename, delete], [true, true, true]), 2).valid == [false, false, true]
  {
  }

  /** After a rename is moved to the front, the loop goes on at the slot
   *  below, which now holds what was two slots below: the event that was
   *  just below the rename is never looked at.  Here a create followed by a
   *  delete of the same name survives because an unrelated rename came
   *  after them. */
  lemma SkipAfterRenameExample()
    ensures var st := Stat(0, 0, 0, 0, 0, 0);
      var create := Event(Create, Regular, true, 1, 1, 0, 0, st);
      var delete := Event(Delete, Regular, false, 1, 1, 0, 0, st);
      var rename := Event(Rename, Regular, false, 3, 1, 4, 1, st);
      OptimiseFrom(Batch([create, delete], [true, true]), 1).valid == [false, true] &&
      OptimiseFrom(Batch([create, delete, rename], [true, true, true]), 2).valid == [true, true, true]
  {
  }

  // ---------------------------------------------------------------------
  // The scan loop as written

  /**
   * The indices delete_events and remove_duplicate_events look at, as their
   * loop is written: the test `evcount >= 0` comes before the decrement, so
   * after index 0 the loop runs once more and reads valid[-1].
   */
  function ScanIndicesAsWritten(evcount: int): (visited: seq<int>)
    requires evcount >= 0
    decreases evcount
  {
    [evcount - 1] + (if evcount > 0 then ScanIndicesAsWritten(evcount - 1) else [])
  }

  /** The same loop with the test `evcount > 0`, as DeleteEvents and
   *  RemoveDuplicateEvents run it. */
  function ScanIndices(evcount: int): (visited: seq<int>)
    requires evcount >= 0
    decreases evcount
  {
    if evcount > 0 then [evcount - 1] + ScanIndices(evcount - 1) else []
  }

  /** As written, every scan (one that no rename stops early) ends by
   *  reading index -1. */
  lemma {:induction false} ScanAsWrittenReadsMinusOne(evcount: int)
    requires evcount >= 0
    ensures var v := ScanIndicesAsWritten(evcount);
      |v| == evcount + 1 && v[|v| - 1] == -1
    decreases evcount
  {
    if evcount > 0 {
      ScanAsWrittenReadsMinusOne(evcount - 1);
    }
  }

  /** Corrected, the scan visits exactly evcount-1 down to 0. */
  lemma {:induction false} ScanVisitsBatch(evcount: int)
    requires evcount >= 0
    ensures var v := ScanIndices(evcount);
      |v| == evcount && forall k :: 0 <= k < |v| ==> v[k] == evcount - 1 - k
    decreases evcount
  {
    if evcount > 0 {
      ScanVisitsBatch(evcount - 1);
    }
  }
}
