/**
 * The state the Tile Accelerator driver keeps between calls
 * (homebrew/libnaomi/ta.c): the `waiting_lists` mask of the current
 * phase and the twiddle table used by the texture loader.
 */
module TileAccelerator {
  import opened TaDescriptors
  import opened TaLists
  import opened TaTexture

  class Driver {
    /** The command bits this driver is built against. */
    const cmd: CommandBits
    /** `twiddletab`, filled once by `_ta_init`. */
    const twiddletab: array<bv32>
    /**
     * `waiting_lists`: the lists the current phase must wait for, held as
     * the set of lists whose flag is set; `Flags()` is the C value.
     */
    var waitingLists: set<ListType>
    /** Everything done to hardware or scheduler so far. */
    var events: seq<Event>

    ghost predicate Valid()
      reads this, twiddletab
    {
      TwiddleReady(twiddletab)
    }

    /** The unsigned value of `waiting_lists`. */
    function Flags(): bv32
      reads this
    {
      Mask(waitingLists)
    }

    /** `_ta_init`, as far as the driver's own state goes: builds the twiddle table. */
    constructor(cmd: CommandBits)
      ensures Valid() && fresh(twiddletab)
      ensures this.cmd == cmd && waitingLists == {} && Flags() == 0 && events == []
    {
      var tab := new bv32[1024];
      InitTwiddleTab(tab);
      this.cmd := cmd;
      twiddletab := tab;
      waitingLists := {};
      events := [];
      MaskZero({});
    }

    /**
     * `ta_commit_list`: registers the lists a polygon command feeds, then
     * copies `len` bytes of the command to the TA.
     */
    method CommitList(src: seq<bv32>, len: int, irqDisabled: bool)
      requires len == 32 || len == 64
      requires 4 * |src| >= len
      modifies this
      ensures waitingLists == old(waitingLists) + Registered(TagsOf(cmd, src[0]), irqDisabled)
      ensures Flags() == old(Flags()) | Mask(Registered(TagsOf(cmd, src[0]), irqDisabled))
      ensures events == old(events) + Notifications(TagsOf(cmd, src[0]), irqDisabled, old(waitingLists)) + [StoreQueue(src[..len / 4])]
    {
      Track(TagsOf(cmd, src[0]), irqDisabled);
      events := events + [StoreQueue(src[..len / 4])];
      MaskUnion(old(waitingLists), Registered(TagsOf(cmd, src[0]), irqDisabled));
    }

    /** The first part of `ta_commit_list`: the waiting-list bookkeeping for the command word's bits. */
    method Track(tags: Tags, irqDisabled: bool)
      modifies this
      ensures waitingLists == old(waitingLists) + Registered(tags, irqDisabled)
      ensures events == old(events) + Notifications(tags, irqDisabled, old(waitingLists))
    {
      if !irqDisabled && tags.polygon {
        PolygonCommit(tags, waitingLists);
        RegisterAll(tags.opaqueType, tags.transparentType, tags.punchThruType);
      } else {
        CommitWithoutPolygon(tags, irqDisabled, waitingLists);
      }
    }

    /** The three blocks of `ta_commit_list` for a polygon command with the given type bits. */
    method RegisterAll(opaqueType: bool, transparentType: bool, punchThruType: bool)
      modifies this
      ensures waitingLists == old(waitingLists) + (SetIf(opaqueType, Opaque) + SetIf(transparentType, Transparent) + SetIf(punchThruType, PunchThru))
      ensures events == old(events) + NotifyIf(opaqueType && Opaque !in old(waitingLists), Opaque)
                    + NotifyIf(transparentType && Transparent !in old(waitingLists), Transparent)
                    + NotifyIf(punchThruType && PunchThru !in old(waitingLists), PunchThru)
    {
      Register(Opaque, opaqueType);
      Register(Transparent, transparentType);
      Register(PunchThru, punchThruType);
    }

    /**
     * One of the three blocks of `ta_commit_list`: start waiting for list l
     * if the command carries its type bit. The flag test and the or-ing in
     * of the flag are membership and insertion (see `MaskHas`, `MaskAdd`).
     */
    method Register(l: ListType, tagged: bool)
      modifies this
      ensures waitingLists == old(waitingLists) + SetIf(tagged, l)
      ensures events == old(events) + NotifyIf(tagged && l !in old(waitingLists), l)
    {
      if tagged {
        if l !in waitingLists {
          waitingLists := waitingLists + {l};
          events := events + [Notify(l)];
        }
      }
    }

    /** `ta_commit_begin`: points the TA at the frame's tile grid and starts a phase with no lists pending. */
    method CommitBegin(videoWidth: bv32, videoHeight: bv32)
      modifies this
      ensures waitingLists == {} && Flags() == 0
      ensures events == old(events) + [SetTileClip(TileClip(videoWidth / 32, videoHeight / 32))]
    {
      events := events + [SetTileClip(TileClip(videoWidth / 32, videoHeight / 32))];
      waitingLists := {};
      MaskZero({});
    }

    /** `ta_commit_end`: sends the end-of-list command and waits for the pending lists. */
    method CommitEnd(irqDisabled: bool)
      modifies this
      ensures waitingLists == old(waitingLists)
      ensures events == old(events) + EndEvents(Flags(), irqDisabled)
    {
      events := events + [StoreQueue(EndOfListWords())];
      var flags := Flags();
      if flags != 0 && ListFlag(Opaque) != 0 {
        WaitFor(Opaque, irqDisabled);
      }
      if flags != 0 && ListFlag(Transparent) != 0 {
        WaitFor(Transparent, irqDisabled);
      }
      if flags != 0 && ListFlag(PunchThru) != 0 {
        WaitFor(PunchThru, irqDisabled);
      }
    }

    /** Waits for list l: polling the interrupt status when interrupts are off, blocking the thread otherwise. */
    method WaitFor(l: ListType, irqDisabled: bool)
      modifies this
      ensures waitingLists == old(waitingLists)
      ensures events == old(events) + [Wait(irqDisabled, l)]
    {
      if irqDisabled {
        events := events + [SpinWait(l)];
      } else {
        events := events + [ThreadWait(l)];
      }
    }

    /**
     * `ta_texture_load`: checks the arguments, then scatters a 256x256
     * 8-bit texture (32768 halfwords) into twiddled order, whatever `size` is.
     */
    method TextureLoad(offset: array?<bv16>, size: int, data: array?<bv16>) returns (r: int)
      requires Valid()
      requires TextureSize(size) && offset != null && data != null ==> offset.Length >= 0x8000 && data.Length >= 0x8000
      requires TextureSize(size) && offset != null && data != null ==> offset != data
      modifies offset
      ensures r == 0 <==> TextureSize(size) && offset != null && data != null
      ensures r != 0 ==> r == -1
      ensures r == 0 ==> forall a, b :: Texel(a, b) ==> offset[TexelIndex(twiddletab, a, b)] == data[SrcWord(a, b)]
      ensures r == 0 ==> offset[0x8000..] == old(offset[0x8000..])
      ensures r != 0 && offset != null ==> offset[..] == old(offset[..])
    {
      if !TextureSize(size) {
        return -1;
      }
      if offset == null || data == null {
        return -1;
      }
      for i := 0 to 256
        invariant Loaded(twiddletab, offset[..], data[..], i, 0)
        invariant offset[0x8000..] == old(offset[0x8000..])
      {
        LoadRow(offset, data, i);
      }
      return 0;
    }

    /** The inner loop of `ta_texture_load` for row i. */
    method LoadRow(tex: array<bv16>, src: array<bv16>, i: int)
      requires Valid() && tex.Length >= 0x8000 && src.Length >= 0x8000 && tex != src && 0 <= i < 256
      requires Loaded(twiddletab, tex[..], src[..], i, 0)
      modifies tex
      ensures Loaded(twiddletab, tex[..], src[..], i + 1, 0)
      ensures tex[0x8000..] == old(tex[0x8000..])
    {
      var j := 0;
      while j < 256
        invariant 0 <= j <= 256 && j % 2 == 0
        invariant Loaded(twiddletab, tex[..], src[..], i, j)
        invariant tex[0x8000..] == old(tex[0x8000..])
      {
        ghost var prev := tex[..];
        tex[TexelIndex(twiddletab, i, j)] := src[SrcWord(i, j)];
        LoadedStep(twiddletab, prev, tex[..], src[..], i, j);
        j := j + 2;
      }
      NextRow(twiddletab, tex[..], src[..], i);
    }
  }
}
