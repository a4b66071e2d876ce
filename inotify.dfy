/** The inotify endpoint of nbio-inotify.c: a table of directory watches
    indexed by watch descriptor, the walk over the records one read of
    the inotify descriptor returns, and the rule that turns one event
    into at most one callback. The watch callbacks themselves are not
    code this model can see: dispatch returns the call it would make. */
module Inotify {
  import opened Bytes
  import Concat

  const IN_ACCESS: bv32 := 0x1
  const IN_MODIFY: bv32 := 0x2
  const IN_ATTRIB: bv32 := 0x4
  const IN_CLOSE_WRITE: bv32 := 0x8
  const IN_CLOSE_NOWRITE: bv32 := 0x10
  const IN_OPEN: bv32 := 0x20
  const IN_MOVED_FROM: bv32 := 0x40
  const IN_MOVED_TO: bv32 := 0x80
  const IN_CREATE: bv32 := 0x100
  const IN_DELETE: bv32 := 0x200
  const IN_DELETE_SELF: bv32 := 0x400
  const IN_MOVE_SELF: bv32 := 0x800
  const IN_UNMOUNT: bv32 := 0x2000
  const IN_Q_OVERFLOW: bv32 := 0x4000
  const IN_IGNORED: bv32 := 0x8000
  const IN_ISDIR: bv32 := 0x4000_0000

  /** sizeof(struct inotify_event) without its name: wd, mask, cookie, len. */
  const HDR: nat := 16

  // ---------------------------------------------------------------------
  // mask2str

  /** Whether a mask has any of the bits of v. */
  predicate Meets(mask: bv32, v: bv32)
  {
    mask & v != 0
  }

  /** The flags of mask2str's table, in its order ... */
  const FLAG_VALS: seq<bv32> := [
    IN_ACCESS, IN_ATTRIB, IN_CLOSE_WRITE, IN_CLOSE_NOWRITE, IN_CREATE, IN_DELETE,
    IN_DELETE_SELF, IN_MODIFY, IN_MOVE_SELF, IN_MOVED_FROM, IN_MOVED_TO, IN_OPEN,
    IN_IGNORED, IN_ISDIR, IN_Q_OVERFLOW, IN_UNMOUNT]

  /** ... and the name each prints: the flag's own identifier. */
  const FLAG_NAMES: seq<string> := [
    "IN_ACCESS", "IN_ATTRIB", "IN_CLOSE_WRITE", "IN_CLOSE_NOWRITE", "IN_CREATE", "IN_DELETE",
    "IN_DELETE_SELF", "IN_MODIFY", "IN_MOVE_SELF", "IN_MOVED_FROM", "IN_MOVED_TO", "IN_OPEN",
    "IN_IGNORED", "IN_ISDIR", "IN_Q_OVERFLOW", "IN_UNMOUNT"]

  /** The indices of the first i entries of a flag table that meet the
      mask, in table order. */
  function SetFlags(mask: bv32, vals: seq<bv32>, i: nat): (r: seq<nat>)
    requires i <= |vals|
    ensures forall j :: 0 <= j < |r| ==> r[j] < i
  {
    if i == 0 then []
    else SetFlags(mask, vals, i - 1) + (if Meets(mask, vals[i - 1]) then [i - 1] else [])
  }

  /** An entry is listed exactly when its flag meets the mask, and the
      entries are listed in table order. */
  lemma {:induction false} SetFlagsExact(mask: bv32, vals: seq<bv32>, i: nat)
    requires i <= |vals|
    ensures forall k :: 0 <= k < i ==> (k in SetFlags(mask, vals, i) <==> Meets(mask, vals[k]))
    ensures forall x, y :: 0 <= x < y < |SetFlags(mask, vals, i)| ==>
      SetFlags(mask, vals, i)[x] < SetFlags(mask, vals, i)[y] < i
  {
    if i > 0 {
      SetFlagsExact(mask, vals, i - 1);
      var p, r := SetFlags(mask, vals, i - 1), SetFlags(mask, vals, i);
      assert r == p + (if Meets(mask, vals[i - 1]) then [i - 1] else []);
      forall k | 0 <= k < i ensures k in r <==> Meets(mask, vals[k]) {
        if k < i - 1 {
          assert i - 1 !in p;
          assert k in r <==> k in p;
        } else {
          assert k !in p;
        }
      }
      forall x, y | 0 <= x < y < |r| ensures r[x] < r[y] < i {
        assert r[x] == p[x];
        if y < |p| {
          assert r[y] == p[y];
        } else {
          assert r[y] == i - 1;
        }
      }
    }
  }

  /** The names of the listed entries. */
  function Names(names: seq<string>, idx: seq<nat>): (r: seq<string>)
    requires forall j :: 0 <= j < |idx| ==> idx[j] < |names|
    ensures |r| == |idx|
  {
    if idx == [] then [] else Names(names, idx[..|idx| - 1]) + [names[idx[|idx| - 1]]]
  }

  /** Names separated by ", ". */
  function Join(ns: seq<string>): string
  {
    if ns == [] then ""
    else if |ns| == 1 then ns[0]
    else Join(ns[..|ns| - 1]) + ", " + ns[|ns| - 1]
  }

  /** The text mask2str produces for a mask. */
  function MaskText(mask: bv32): string
  {
    Join(Names(FLAG_NAMES, SetFlags(mask, FLAG_VALS, 16)))
  }

  /** One more table entry: its name is appended, after ", " when
      something was listed before it, exactly when its flag meets the mask. */
  lemma TextStep(mask: bv32, vals: seq<bv32>, names: seq<string>, i: nat)
    requires i < |vals| == |names|
    ensures SetFlags(mask, vals, i + 1) != [] <==> SetFlags(mask, vals, i) != [] || Meets(mask, vals[i])
    ensures Join(Names(names, SetFlags(mask, vals, i + 1))) ==
            if !Meets(mask, vals[i]) then Join(Names(names, SetFlags(mask, vals, i)))
            else if SetFlags(mask, vals, i) == [] then names[i]
            else Join(Names(names, SetFlags(mask, vals, i))) + ", " + names[i]
  {
    var idx := SetFlags(mask, vals, i);
    if Meets(mask, vals[i]) {
      assert SetFlags(mask, vals, i + 1) == idx + [i];
      assert (idx + [i])[..|idx|] == idx;
      var ns := Names(names, idx);
      assert Names(names, idx + [i]) == ns + [names[i]];
      assert (ns + [names[i]])[..|ns|] == ns;
      if idx == [] {
        assert ns + [names[i]] == [names[i]];
      } else {
        assert Join(ns + [names[i]]) == Join(ns) + ", " + names[i];
      }
    } else {
      assert SetFlags(mask, vals, i + 1) == idx;
    }
  }

  /** The walk over a flag table: each entry whose flag meets the mask
      appends its name, after ", " once something was written; done says
      whether anything was. */
  method ListNames(mask: bv32, vals: seq<bv32>, names: seq<string>) returns (s: string, done: bool)
    requires |vals| == |names|
    ensures s == Join(Names(names, SetFlags(mask, vals, |vals|)))
    ensures done <==> SetFlags(mask, vals, |vals|) != []
  {
    s := "";
    done := false;
    var i := 0;
    while i < |vals|
      invariant i <= |vals|
      invariant done <==> SetFlags(mask, vals, i) != []
      invariant s == Join(Names(names, SetFlags(mask, vals, i)))
    {
      TextStep(mask, vals, names, i);
      if Meets(mask, vals[i]) {
        s := s + (if done then ", " else "") + names[i];
        done := true;
      }
      i := i + 1;
    }
  }

  /** Something is listed exactly when some flag of the table meets the mask. */
  lemma {:induction false} SomeMeets(mask: bv32, vals: seq<bv32>, i: nat)
    requires i <= |vals|
    ensures SetFlags(mask, vals, i) != [] <==> exists k :: 0 <= k < i && Meets(mask, vals[k])
    decreases i
  {
    if i > 0 {
      SomeMeets(mask, vals, i - 1);
      if SetFlags(mask, vals, i - 1) == [] && !Meets(mask, vals[i - 1]) {
        assert forall k :: 0 <= k < i ==> !Meets(mask, vals[k]) by {
          forall k | 0 <= k < i ensures !Meets(mask, vals[k]) {
            if k < i - 1 {
              assert !(0 <= k < i - 1 && Meets(mask, vals[k]));
            }
          }
        }
      }
    }
  }

  /** mask2str: the names of the flags of its table set in the mask, in
      table order, separated by ", ", written into a static buffer of 256
      bytes that it returns. prev is the text the buffer holds from the
      call before (empty before the first): a mask that meets none of the
      flags writes nothing, so that text is what comes back. */
  method MaskToString(mask: bv32, prev: string) returns (s: string)
    ensures (exists k :: 0 <= k < |FLAG_VALS| && Meets(mask, FLAG_VALS[k])) ==> s == MaskText(mask)
    ensures (forall k :: 0 <= k < |FLAG_VALS| ==> !Meets(mask, FLAG_VALS[k])) ==> s == prev
  {
    var text, done := ListNames(mask, FLAG_VALS, FLAG_NAMES);
    SomeMeets(mask, FLAG_VALS, |FLAG_VALS|);
    s := if done then text else prev;
  }

  // ---------------------------------------------------------------------
  // dispatch

  /** Which of a watch's callbacks are set (a NULL function pointer is false). */
  datatype Ops = Ops(create: bool, delete: bool, movedFrom: bool, movedTo: bool,
                     moveSelf: bool, deleteSelf: bool, dtor: bool)

  /** One slot of the watch table: w_d, w_priv and w_ops (None for NULL). */
  datatype Watch = Watch(wd: int, priv: nat, ops: Option<Ops>)

  /** One inotify event; `name` holds its ev->len name bytes. */
  datatype Event = Event(wd: int, mask: bv32, cookie: nat, name: seq<byte>)

  datatype Kind = Ignored | Create | Delete | MovedFrom | MovedTo | MoveSelf | DeleteSelf

  /** A callback invocation: the four directory-entry callbacks get the
      watch's private pointer, the copied name (None for NULL) and the
      directory flag; move_self and delete_self get the pointer alone. */
  datatype Call =
    | EntryCall(kind: Kind, priv: nat, name: Option<seq<byte>>, isdir: bool)
    | SelfCall(kind: Kind, priv: nat)

  /** The order in which dispatch tests the flags, and the callback each
      selects. */
  const PRIORITY: seq<(bv32, Kind)> := [
    (IN_IGNORED, Ignored), (IN_CREATE, Create), (IN_DELETE, Delete),
    (IN_MOVED_FROM, MovedFrom), (IN_MOVED_TO, MovedTo), (IN_MOVE_SELF, MoveSelf),
    (IN_DELETE_SELF | IN_UNMOUNT, DeleteSelf)]

  /** The first entry of PRIORITY from i on whose flags meet the mask. */
  function Selected(mask: bv32, i: nat): Option<Kind>
    requires i <= |PRIORITY|
    decreases |PRIORITY| - i
  {
    if i == |PRIORITY| then None
    else if Meets(mask, PRIORITY[i].0) then Some(PRIORITY[i].1)
    else Selected(mask, i + 1)
  }

  /** Whether a watch has the callback for a kind. */
  function Has(ops: Ops, k: Kind): bool
  {
    match k
    case Ignored => false
    case Create => ops.create
    case Delete => ops.delete
    case MovedFrom => ops.movedFrom
    case MovedTo => ops.movedTo
    case MoveSelf => ops.moveSelf
    case DeleteSelf => ops.deleteSelf
  }

  /** The name dispatch hands over: a NUL-terminated copy of the name
      bytes, or NULL when the event has none. */
  function NameCopy(name: seq<byte>): Option<seq<byte>>
  {
    if |name| == 0 then None else Some(name + [NUL])
  }

  /** dispatch: which callback, if any, one event triggers. `allocOk` is
      the outcome of the malloc for the name copy. */
  function Dispatch(ws: seq<Watch>, ev: Event, allocOk: bool): Option<Call>
  {
    if ev.wd < 0 || ev.wd >= |ws| then None
    else
      var w := ws[ev.wd];
      if w.ops.None? then None
      else if |ev.name| > 0 && !allocOk then None
      else
        var ops := w.ops.value;
        var isdir := Meets(ev.mask, IN_ISDIR);
        var nstr := NameCopy(ev.name);
        if Meets(ev.mask, IN_IGNORED) then None
        else if Meets(ev.mask, IN_CREATE) then
          if ops.create then Some(EntryCall(Create, w.priv, nstr, isdir)) else None
        else if Meets(ev.mask, IN_DELETE) then
          if ops.delete then Some(EntryCall(Delete, w.priv, nstr, isdir)) else None
        else if Meets(ev.mask, IN_MOVED_FROM) then
          if ops.movedFrom then Some(EntryCall(MovedFrom, w.priv, nstr, isdir)) else None
        else if Meets(ev.mask, IN_MOVED_TO) then
          if ops.movedTo then Some(EntryCall(MovedTo, w.priv, nstr, isdir)) else None
        else if Meets(ev.mask, IN_MOVE_SELF) then
          if ops.moveSelf then Some(SelfCall(MoveSelf, w.priv)) else None
        else if Meets(ev.mask, (IN_DELETE_SELF | IN_UNMOUNT)) then
          if ops.deleteSelf then Some(SelfCall(DeleteSelf, w.priv)) else None
        else None
  }

  /** Events for a descriptor outside the table, or for a slot with no
      callbacks, are dropped. */
  lemma DispatchIgnoresUnknown(ws: seq<Watch>, ev: Event, allocOk: bool)
    requires ev.wd < 0 || ev.wd >= |ws| || ws[ev.wd].ops.None?
    ensures Dispatch(ws, ev, allocOk).None?
  {
  }

  /** At most one callback fires, and it is the one PRIORITY selects for
      the event's mask, present in the slot's table, with the slot's
      private pointer; when that callback is present (and the name could
      be copied) it does fire. */
  lemma {:induction false} DispatchFollowsPriority(ws: seq<Watch>, ev: Event, allocOk: bool)
    requires 0 <= ev.wd < |ws| && ws[ev.wd].ops.Some?
    requires |ev.name| == 0 || allocOk
    ensures var sel := Selected(ev.mask, 0);
      Dispatch(ws, ev, allocOk).Some? <==>
        sel.Some? && sel.value != Ignored && Has(ws[ev.wd].ops.value, sel.value)
    ensures var c := Dispatch(ws, ev, allocOk);
      c.Some? ==> Selected(ev.mask, 0) == Some(c.value.kind) && c.value.priv == ws[ev.wd].priv
  {
    SelectedChain(ev.mask);
  }

  /** PRIORITY written out: the first of its flags that meets the mask. */
  lemma {:induction false} SelectedChain(m: bv32)
    ensures Selected(m, 0) ==
      if Meets(m, IN_IGNORED) then Some(Ignored)
      else if Meets(m, IN_CREATE) then Some(Create)
      else if Meets(m, IN_DELETE) then Some(Delete)
      else if Meets(m, IN_MOVED_FROM) then Some(MovedFrom)
      else if Meets(m, IN_MOVED_TO) then Some(MovedTo)
      else if Meets(m, IN_MOVE_SELF) then Some(MoveSelf)
      else if Meets(m, (IN_DELETE_SELF | IN_UNMOUNT)) then Some(DeleteSelf)
      else None
  {
    assert Selected(m, 0) == if Meets(m, IN_IGNORED) then Some(Ignored) else Selected(m, 1);
    assert Selected(m, 1) == if Meets(m, IN_CREATE) then Some(Create) else Selected(m, 2);
    assert Selected(m, 2) == if Meets(m, IN_DELETE) then Some(Delete) else Selected(m, 3);
    assert Selected(m, 3) == if Meets(m, IN_MOVED_FROM) then Some(MovedFrom) else Selected(m, 4);
    assert Selected(m, 4) == if Meets(m, IN_MOVED_TO) then Some(MovedTo) else Selected(m, 5);
    assert Selected(m, 5) == if Meets(m, IN_MOVE_SELF) then Some(MoveSelf) else Selected(m, 6);
    assert Selected(m, 6) == if Meets(m, (IN_DELETE_SELF | IN_UNMOUNT)) then Some(DeleteSelf) else None;
  }

  /** A directory-entry callback receives the name bytes followed by a
      NUL, or NULL when the event carries no name, and the IN_ISDIR bit. */
  lemma DispatchName(ws: seq<Watch>, ev: Event, allocOk: bool)
    requires Dispatch(ws, ev, allocOk).Some? && Dispatch(ws, ev, allocOk).value.EntryCall?
    ensures var c := Dispatch(ws, ev, allocOk).value;
      (c.name.None? <==> |ev.name| == 0) &&
      (c.name.Some? ==> c.name.value[..|ev.name|] == ev.name && c.name.value == ev.name + [NUL]) &&
      (c.isdir <==> Meets(ev.mask, IN_ISDIR))
  {
  }

  // ---------------------------------------------------------------------
  // efd_read: the records of one read

  /** The record that starts at p: its header's len field is the length
      of the name that follows. */
  function RecordSize(buf: seq<byte>, p: nat): nat
    requires p + HDR <= |buf|
  {
    HDR + U32(buf, p + 12)
  }

  /** The bytes from p on are a whole number of records, as the kernel
      returns them. */
  predicate Tiled(buf: seq<byte>, p: nat)
    requires p <= |buf|
    decreases |buf| - p
  {
    p == |buf| ||
    (p + HDR <= |buf| && p + RecordSize(buf, p) <= |buf| && Tiled(buf, p + RecordSize(buf, p)))
  }

  /** A signed 32-bit field stored in two's complement. */
  function S32(buf: seq<byte>, o: nat): (r: int)
    requires o + 4 <= |buf|
    ensures -0x8000_0000 <= r < 0x8000_0000
  {
    var u := U32(buf, o);
    if u < 0x8000_0000 then u else u - 0x1_0000_0000
  }

  /** The event whose record starts at p. */
  function EventAt(buf: seq<byte>, p: nat): (ev: Event)
    requires p + HDR <= |buf| && p + RecordSize(buf, p) <= |buf|
    ensures |ev.name| == RecordSize(buf, p) - HDR
  {
    Event(S32(buf, p), U32(buf, p + 4) as bv32, U32(buf, p + 8), buf[p + HDR..p + RecordSize(buf, p)])
  }

  /** The events of the records from p on, in buffer order. */
  function EventsFrom(buf: seq<byte>, p: nat): seq<Event>
    requires p <= |buf| && Tiled(buf, p)
    decreases |buf| - p
  {
    if p == |buf| then [] else [EventAt(buf, p)] + EventsFrom(buf, p + RecordSize(buf, p))
  }

  /** The bytes each event occupies: its header and its name. */
  function Footprint(evs: seq<Event>): nat
  {
    if evs == [] then 0 else HDR + |evs[0].name| + Footprint(evs[1..])
  }

  /** The records tile the buffer: their sizes add up to the bytes read. */
  lemma {:induction false} EventsCover(buf: seq<byte>, p: nat)
    requires p <= |buf| && Tiled(buf, p)
    ensures p + Footprint(EventsFrom(buf, p)) == |buf|
    decreases |buf| - p
  {
    if p < |buf| {
      var evs := EventsFrom(buf, p);
      EventsCover(buf, p + RecordSize(buf, p));
      assert evs[1..] == EventsFrom(buf, p + RecordSize(buf, p));
    }
  }

  /** The loop of efd_read over one buffer: starting at the first byte,
      the cursor moves from record to record by the header size plus the
      record's len, until it reaches the end; `evs` are the records it
      visits, in order. */
  method Walk(buf: seq<byte>) returns (evs: seq<Event>)
    requires Tiled(buf, 0)
    ensures evs == EventsFrom(buf, 0)
  {
    var ptr := 0;
    evs := [];
    while ptr < |buf|
      invariant ptr <= |buf| && Tiled(buf, ptr)
      invariant EventsFrom(buf, 0) == evs + EventsFrom(buf, ptr)
      decreases |buf| - ptr
    {
      var ev, next := WalkNext(buf, ptr);
      assert evs + EventsFrom(buf, ptr) == (evs + [ev]) + EventsFrom(buf, next);
      evs := evs + [ev];
      ptr := next;
    }
  }

  /** One move of the cursor: the record at ptr, and where the next one
      starts. */
  method WalkNext(buf: seq<byte>, ptr: nat) returns (ev: Event, next: nat)
    requires ptr < |buf| && Tiled(buf, ptr)
    ensures ptr < next <= |buf| && Tiled(buf, next)
    ensures ev == EventAt(buf, ptr) && EventsFrom(buf, ptr) == [ev] + EventsFrom(buf, next)
  {
    WalkStep(buf, ptr);
    ev := EventAt(buf, ptr);
    next := ptr + RecordSize(buf, ptr);
  }

  /** One record of the walk: it fits in the buffer, the rest is still
      whole records, and it comes first. */
  lemma WalkStep(buf: seq<byte>, p: nat)
    requires p < |buf| && Tiled(buf, p)
    ensures p + HDR <= |buf| && p + RecordSize(buf, p) <= |buf|
    ensures Tiled(buf, p + RecordSize(buf, p))
    ensures EventsFrom(buf, p) == [EventAt(buf, p)] + EventsFrom(buf, p + RecordSize(buf, p))
  {
  }

  /** efd_read for one successful read: every record of the buffer is
      dispatched in turn; `allocOk` gives the outcome of each name
      copy's malloc. The read itself is left to the caller. */
  method Read(ws: seq<Watch>, buf: seq<byte>, allocOk: nat -> bool) returns (calls: seq<Call>)
    requires Tiled(buf, 0)
    ensures calls == Dispatched(ws, EventsFrom(buf, 0), allocOk, 0)
  {
    var evs := Walk(buf);
    calls := DispatchAll(ws, evs, allocOk);
  }

  /** The dispatch half of efd_read's loop: each event in turn, the k-th
      with allocation outcome allocOk(k). */
  method DispatchAll(ws: seq<Watch>, evs: seq<Event>, allocOk: nat -> bool) returns (calls: seq<Call>)
    ensures calls == Dispatched(ws, evs, allocOk, 0)
  {
    calls := [];
    var i := 0;
    assert evs[0..] == evs;
    while i < |evs|
      invariant i <= |evs|
      invariant Dispatched(ws, evs, allocOk, 0) == calls + Dispatched(ws, evs[i..], allocOk, i)
    {
      var c := DispatchAt(ws, evs, allocOk, i);
      ghost var rest := Dispatched(ws, evs[i + 1..], allocOk, i + 1);
      if c.Some? {
        Concat.Assoc(calls, [c.value], rest);
        calls := calls + [c.value];
      } else {
        assert [] + rest == rest;
      }
      i := i + 1;
    }
    assert evs[i..] == [];
  }

  /** Dispatching the i-th event: its call, if any, comes before those
      of the events after it. */
  method DispatchAt(ws: seq<Watch>, evs: seq<Event>, allocOk: nat -> bool, i: nat) returns (c: Option<Call>)
    requires i < |evs|
    ensures c == Dispatch(ws, evs[i], allocOk(i))
    ensures Dispatched(ws, evs[i..], allocOk, i) ==
      (if c.Some? then [c.value] else []) + Dispatched(ws, evs[i + 1..], allocOk, i + 1)
  {
    c := Dispatch(ws, evs[i], allocOk(i));
    DispatchedStep(ws, evs, allocOk, i);
  }

  /** The calls for the events from i on: the i-th event's call, if any,
      then those for the rest. */
  lemma DispatchedStep(ws: seq<Watch>, evs: seq<Event>, allocOk: nat -> bool, i: nat)
    requires i < |evs|
    ensures var c := Dispatch(ws, evs[i], allocOk(i));
      Dispatched(ws, evs[i..], allocOk, i) ==
      (if c.Some? then [c.value] else []) + Dispatched(ws, evs[i + 1..], allocOk, i + 1)
  {
    assert evs[i..][1..] == evs[i + 1..];
  }

  /** The calls dispatch makes for a sequence of events; the k-th event
      overall (counting from `k0`) uses allocation outcome allocOk(k). */
  function Dispatched(ws: seq<Watch>, evs: seq<Event>, allocOk: nat -> bool, k0: nat): seq<Call>
  {
    if evs == [] then []
    else
      var c := Dispatch(ws, evs[0], allocOk(k0));
      (if c.Some? then [c.value] else []) + Dispatched(ws, evs[1..], allocOk, k0 + 1)
  }

  /** No event yields more than one call. */
  lemma {:induction false} AtMostOneCallEach(ws: seq<Watch>, evs: seq<Event>, allocOk: nat -> bool, k0: nat)
    ensures |Dispatched(ws, evs, allocOk, k0)| <= |evs|
  {
    if evs != [] {
      AtMostOneCallEach(ws, evs[1..], allocOk, k0 + 1);
    }
  }

  // ---------------------------------------------------------------------
  // The watch table

  /** efd_dtor: the dtor callback of every slot whose descriptor is in use
      and whose table has one, in slot order. */
  function DtorCalls(ws: seq<Watch>): (r: seq<nat>)
    ensures |r| <= |ws|
    ensures forall i :: 0 <= i < |ws| && ws[i].wd >= 0 && ws[i].ops.Some? && ws[i].ops.value.dtor ==> ws[i].priv in r
  {
    if ws == [] then []
    else
      var w := ws[|ws| - 1];
      DtorCalls(ws[..|ws| - 1]) + (if w.wd >= 0 && w.ops.Some? && w.ops.value.dtor then [w.priv] else [])
  }

  class Notifier {
    /** n_watch; n_num_watch is its length. */
    var watches: seq<Watch>

    /** nbio_inotify_new after both the allocation and inotify_init1
        succeeded: an empty table. */
    constructor()
      ensures watches == []
    {
      watches := [];
    }

    /** nbio_inotify_watch_dir. `wd` is what inotify_add_watch returned
        (negative on failure) and `reallocOk` the outcome of growing the
        table. Growing to wd + 1 slots marks slot wd unused; the slots
        between the old end and wd hold whatever realloc left there,
        stale(i) for slot i. A descriptor whose slot is already in use is
        refused. */
    method WatchDir(wd: int, ops: Option<Ops>, priv: nat, reallocOk: bool, stale: nat -> Watch) returns (ok: bool)
      modifies this
      ensures wd < 0 ==> !ok && watches == old(watches)
      ensures wd >= 0 && wd >= |old(watches)| && !reallocOk ==> !ok && watches == old(watches)
      ensures wd >= 0 && wd < |old(watches)| && old(watches)[wd].wd >= 0 ==> !ok && watches == old(watches)
      ensures ok <==> wd >= 0 && (if wd < |old(watches)| then old(watches)[wd].wd < 0 else reallocOk)
      ensures ok ==> |watches| == if wd < |old(watches)| then |old(watches)| else wd + 1
      ensures ok ==> watches[wd] == Watch(wd, priv, ops)
      ensures ok ==> forall i :: 0 <= i < |old(watches)| && i != wd ==> watches[i] == old(watches)[i]
      ensures ok ==> forall i :: |old(watches)| <= i < wd ==> watches[i] == stale(i)
    {
      if wd < 0 {
        return false;
      }
      if |watches| < wd + 1 {
        if !reallocOk {
          return false;
        }
        var n := |watches|;
        watches := watches + seq(wd - n, (k: nat) => stale(n + k)) + [Watch(-1, 0, None)];
      }
      if watches[wd].wd >= 0 {
        return false;
      }
      watches := watches[wd := Watch(wd, priv, ops)];
      return true;
    }
  }
}
