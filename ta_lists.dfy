/**
 * The `waiting_lists` bookkeeping of the Tile Accelerator driver
 * (homebrew/libnaomi/ta.c): which display lists a polygon command
 * registers, which notifications that sends, and what the end of a phase
 * waits for. Hardware and scheduler effects are events in a log.
 *
 * `waiting_lists` only ever holds a combination of the three list flags,
 * so the lists are reasoned about as a set and `Mask` gives the unsigned
 * value the C code stores for that set.
 */
module TaLists {

  /** The three display lists a phase can wait for. */
  datatype ListType = Opaque | Transparent | PunchThru

  /** WAITING_LIST_OPAQUE, WAITING_LIST_TRANSPARENT, WAITING_LIST_PUNCHTHRU. */
  function ListFlag(l: ListType): (f: bv32)
    ensures f == 1 || f == 2 || f == 4
  {
    match l
    case Opaque => 1
    case Transparent => 2
    case PunchThru => 4
  }

  function FlagIf(b: bool, l: ListType): bv32 {
    if b then ListFlag(l) else 0
  }

  /** The value of `waiting_lists` when exactly the lists in s are pending. */
  function Mask(s: set<ListType>): bv32 {
    FlagIf(Opaque in s, Opaque) | FlagIf(Transparent in s, Transparent) | FlagIf(PunchThru in s, PunchThru)
  }

  /** Testing list l's flag in the mask tells whether l is pending. */
  lemma MaskHas(s: set<ListType>, l: ListType)
    ensures Mask(s) & ListFlag(l) != 0 <==> l in s
  {
  }

  /** Or-ing list l's flag into the mask adds l to the pending lists. */
  lemma MaskAdd(s: set<ListType>, l: ListType)
    ensures Mask(s) | ListFlag(l) == Mask(s + {l})
  {
    var t := s + {l};
    assert Opaque in t <==> Opaque in s || l == Opaque;
    assert Transparent in t <==> Transparent in s || l == Transparent;
    assert PunchThru in t <==> PunchThru in s || l == PunchThru;
  }

  /** Or-ing two masks gives the mask of the union. */
  lemma MaskUnion(s: set<ListType>, r: set<ListType>)
    ensures Mask(s) | Mask(r) == Mask(s + r)
  {
    var t := s + r;
    assert Opaque in t <==> Opaque in s || Opaque in r;
    assert Transparent in t <==> Transparent in s || Transparent in r;
    assert PunchThru in t <==> PunchThru in s || PunchThru in r;
  }

  /** The mask is zero exactly when no list is pending. */
  lemma MaskZero(s: set<ListType>)
    ensures Mask(s) == 0 <==> s == {}
  {
    if s != {} {
      var l :| l in s;
      MaskHas(s, l);
    }
  }

  /** No bit other than the three list flags is ever set. */
  lemma MaskLowBits(s: set<ListType>)
    ensures Mask(s) < 8
  {
  }

  /**
   * The TA_CMD_POLYGON and TA_CMD_POLYGON_TYPE_* bits of a command word.
   * Their values are defined in a header that is not part of this model.
   */
  datatype CommandBits = CommandBits(polygon: bv32, opaqueType: bv32, transparentType: bv32, punchThruType: bv32)

  function TypeBit(c: CommandBits, l: ListType): bv32 {
    match l
    case Opaque => c.opaqueType
    case Transparent => c.transparentType
    case PunchThru => c.punchThruType
  }

  /** The polygon bit and the three list-type bits of one command word, as examined by `ta_commit_list`. */
  datatype Tags = Tags(polygon: bool, opaqueType: bool, transparentType: bool, punchThruType: bool)
  {
    predicate Has(l: ListType) {
      match l
      case Opaque => opaqueType
      case Transparent => transparentType
      case PunchThru => punchThruType
    }
  }

  function TagsOf(c: CommandBits, command: bv32): Tags {
    Tags(command & c.polygon != 0, command & c.opaqueType != 0,
         command & c.transparentType != 0, command & c.punchThruType != 0)
  }

  /** What the driver does to hardware and scheduler, in order. */
  datatype Event =
    | Notify(list: ListType)          // thread_notify_wait_ta_load_*
    | ThreadWait(list: ListType)      // thread_wait_ta_load_*
    | SpinWait(list: ListType)        // poll the interrupt status, then acknowledge it
    | StoreQueue(words: seq<bv32>)    // hw_memcpy of a command to the TA input
    | SetTileClip(value: bv32)        // TILE_CLIP programmed by _ta_set_target

  /** Whether `ta_commit_list` starts waiting for list l because of a command with these tags. */
  predicate Registers(t: Tags, irqDisabled: bool, l: ListType) {
    !irqDisabled && t.polygon && t.Has(l)
  }

  function SetIf(b: bool, l: ListType): set<ListType> {
    if b then {l} else {}
  }

  /** The lists a command registers. */
  function Registered(t: Tags, irqDisabled: bool): set<ListType> {
    SetIf(Registers(t, irqDisabled, Opaque), Opaque)
      + SetIf(Registers(t, irqDisabled, Transparent), Transparent)
      + SetIf(Registers(t, irqDisabled, PunchThru), PunchThru)
  }

  /** Membership in the registered set, one list at a time. */
  lemma RegisteredHas(t: Tags, irqDisabled: bool, l: ListType)
    ensures l in Registered(t, irqDisabled) <==> Registers(t, irqDisabled, l)
  {
  }

  /** The notification for list l, sent when `raise` holds. */
  function NotifyIf(raise: bool, l: ListType): seq<Event> {
    if raise then [Notify(l)] else []
  }

  /** The notifications a command triggers, given the lists pending before it. */
  function Notifications(t: Tags, irqDisabled: bool, pending: set<ListType>): seq<Event> {
    NotifyIf(Registers(t, irqDisabled, Opaque) && Opaque !in pending, Opaque)
      + NotifyIf(Registers(t, irqDisabled, Transparent) && Transparent !in pending, Transparent)
      + NotifyIf(Registers(t, irqDisabled, PunchThru) && PunchThru !in pending, PunchThru)
  }

  /**
   * On the C value: after a command, list l's flag is set iff it was set
   * before or the command registers l, and no bit beyond the three flags
   * is ever set.
   */
  lemma CommitFlagsIff(t: Tags, irqDisabled: bool, pending: set<ListType>, l: ListType)
    ensures (Mask(pending) | Mask(Registered(t, irqDisabled))) & ListFlag(l) != 0
        <==> Mask(pending) & ListFlag(l) != 0 || Registers(t, irqDisabled, l)
  {
    MaskUnion(pending, Registered(t, irqDisabled));
    MaskHas(pending + Registered(t, irqDisabled), l);
    MaskHas(pending, l);
  }

  /** A notification is sent for list l exactly when it goes from not pending to pending. */
  lemma NotifyIffRaised(t: Tags, irqDisabled: bool, pending: set<ListType>, l: ListType)
    ensures Notify(l) in Notifications(t, irqDisabled, pending)
        <==> l !in pending && l in pending + Registered(t, irqDisabled)
    ensures |Notifications(t, irqDisabled, pending)| <= 3
  {
    var ro := Registers(t, irqDisabled, Opaque) && Opaque !in pending;
    var rt := Registers(t, irqDisabled, Transparent) && Transparent !in pending;
    var rp := Registers(t, irqDisabled, PunchThru) && PunchThru !in pending;
    NotifyIfMembers(ro, Opaque, l);
    NotifyIfMembers(rt, Transparent, l);
    NotifyIfMembers(rp, PunchThru, l);
    NotifySplit(NotifyIf(ro, Opaque), NotifyIf(rt, Transparent), NotifyIf(rp, PunchThru), l);
  }

  lemma NotifyIfMembers(raise: bool, l: ListType, m: ListType)
    ensures Notify(m) in NotifyIf(raise, l) <==> m == l && raise
    ensures |NotifyIf(raise, l)| <= 1
  {
  }

  lemma NotifySplit(o: seq<Event>, t: seq<Event>, p: seq<Event>, l: ListType)
    ensures Notify(l) in o + t + p <==> Notify(l) in o || Notify(l) in t || Notify(l) in p
    ensures |o + t + p| == |o| + |t| + |p|
  {
  }

  /** With interrupts disabled, or for a command without the polygon bit, nothing is registered or notified. */
  lemma CommitWithoutPolygon(t: Tags, irqDisabled: bool, pending: set<ListType>)
    requires irqDisabled || !t.polygon
    ensures Registered(t, irqDisabled) == {}
    ensures Notifications(t, irqDisabled, pending) == []
  {
  }

  /** With the polygon bit set and interrupts enabled, list l is registered iff the command carries its type bit. */
  lemma PolygonRegisters(t: Tags, l: ListType)
    requires t.polygon
    ensures Registers(t, false, l) == t.Has(l)
  {
  }

  /** For a polygon command with interrupts enabled, the three blocks register and notify list by list. */
  lemma PolygonCommit(t: Tags, pending: set<ListType>)
    requires t.polygon
    ensures Registered(t, false) == SetIf(t.opaqueType, Opaque) + SetIf(t.transparentType, Transparent) + SetIf(t.punchThruType, PunchThru)
    ensures Notifications(t, false, pending)
         == NotifyIf(t.opaqueType && Opaque !in pending, Opaque)
          + NotifyIf(t.transparentType && Transparent !in pending, Transparent)
          + NotifyIf(t.punchThruType && PunchThru !in pending, PunchThru)
  {
  }

  function Wait(irqDisabled: bool, l: ListType): Event {
    if irqDisabled then SpinWait(l) else ThreadWait(l)
  }

  /** The eight zero words of the end-of-list command (TA_LIST_SHORT, 32 bytes). */
  function EndOfListWords(): (r: seq<bv32>)
    ensures |r| == 8 && forall k :: 0 <= k < 8 ==> r[k] == 0
  {
    [0, 0, 0, 0, 0, 0, 0, 0]
  }

  /**
   * What `ta_commit_end` does for a given `waiting_lists`. Each wait is
   * guarded by `waiting_lists && FLAG`, a logical and, so all three lists
   * are waited for as soon as any flag is set.
   */
  function EndEvents(flags: bv32, irqDisabled: bool): seq<Event> {
    [StoreQueue(EndOfListWords())]
      + (if flags != 0 then [Wait(irqDisabled, Opaque)] else [])
      + (if flags != 0 then [Wait(irqDisabled, Transparent)] else [])
      + (if flags != 0 then [Wait(irqDisabled, PunchThru)] else [])
  }

  /** Each list is waited for iff any flag is set, whichever flag that is, after the end-of-list store. */
  lemma EndWaitsIffAnyFlag(flags: bv32, irqDisabled: bool, l: ListType)
    ensures Wait(irqDisabled, l) in EndEvents(flags, irqDisabled) <==> flags != 0
    ensures EndEvents(flags, irqDisabled)[0] == StoreQueue(EndOfListWords())
    ensures flags == 0 ==> EndEvents(flags, irqDisabled) == [StoreQueue(EndOfListWords())]
    ensures flags != 0 ==> EndEvents(flags, irqDisabled)[1..] == [Wait(irqDisabled, Opaque), Wait(irqDisabled, Transparent), Wait(irqDisabled, PunchThru)]
  {
    if flags != 0 {
      assert EndEvents(flags, irqDisabled) == [StoreQueue(EndOfListWords()), Wait(irqDisabled, Opaque), Wait(irqDisabled, Transparent), Wait(irqDisabled, PunchThru)];
    }
  }

  lemma OpaqueMask()
    ensures Mask({Opaque}) == 1
  {
  }

  /**
   * A phase that only ever sends opaque polygons still waits for the
   * transparent and punch-through lists at its end: such a command
   * registers the opaque list alone, and that one flag makes the end of
   * the phase wait for all three.
   */
  lemma OpaqueOnlyPhaseWaitsForAll(t: Tags, irqDisabled: bool)
    requires t.polygon && t.opaqueType && !t.transparentType && !t.punchThruType
    ensures Registered(t, false) == {Opaque}
    ensures Notifications(t, false, {}) == [Notify(Opaque)]
    ensures Wait(irqDisabled, Transparent) in EndEvents(Mask({Opaque}), irqDisabled)
    ensures Wait(irqDisabled, PunchThru) in EndEvents(Mask({Opaque}), irqDisabled)
  {
    OpaqueMask();
    EndWaitsIffAnyFlag(1, irqDisabled, Transparent);
    EndWaitsIffAnyFlag(1, irqDisabled, PunchThru);
  }
}
