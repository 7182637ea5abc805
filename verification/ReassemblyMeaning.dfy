/** What the reassembler makes of any packets and resets whatsoever, said of the packets themselves: which
    frame each channel has under construction, and which packet completes which frame. */
module ReassemblyMeaning {
  import opened Common
  import opened FrameReassembly
  import opened ReorderQueue
  import opened FrameIntegrity

  // ----- Packets -----

  predicate IsHeader(data: bytes) {
    |data| >= 16 && data[0] == 0x58 && data[1] == 0x5A && data[2] == 0x59 && data[3] == 0x48
  }

  /** The size a header packet declares, in little-endian order. */
  function Declared(data: bytes): int
    requires |data| >= 16
  {
    data[6] as int + 0x100 * data[7] as int + 0x1_0000 * data[8] as int + 0x100_0000 * data[9] as int
  }

  /** The packet opens a frame of 1 byte to 8 MiB on the channel. */
  predicate Opens(op: Op, ch: byte) {
    && op.Deliver? && IsHeader(op.message.data) && op.message.data[12] == ch
    && 1 <= Declared(op.message.data) <= 8_388_608
  }

  /** The size of the frame the packet opens. */
  function SizeOf(op: Op, ch: byte): (size: int)
    requires Opens(op, ch)
    ensures 1 <= size <= 8_388_608
  {
    Declared(op.message.data)
  }

  /** The channel named by the last header packet, well-sized or not. */
  function ChannelAfter(ops: seq<Op>): byte {
    if ops == [] then 0
    else
      var last := ops[|ops| - 1];
      if last.Deliver? && IsHeader(last.message.data) then last.message.data[12] else ChannelAfter(ops[..|ops| - 1])
  }

  /** Packet k carries on whatever its channel, the last one named, has under construction. */
  predicate CarriesOn(ops: seq<Op>, k: nat, ch: byte)
    requires k < |ops|
  {
    ops[k].Deliver? && !IsHeader(ops[k].message.data) && ChannelAfter(ops[..k]) == ch
  }

  /** What follows the header of packet i, and then every packet that carries on its channel. */
  function Gathered(ops: seq<Op>, i: nat, ch: byte): bytes
    requires i < |ops| && Opens(ops[i], ch)
    decreases |ops|
  {
    var n := |ops| - 1;
    if i == n then ops[i].message.data[16..]
    else Gathered(ops[..n], i, ch) + if CarriesOn(ops, n, ch) then ops[n].message.data else []
  }

  /** The frame packet i opened is still under construction: no reset and no other frame on its channel since,
      and at every moment fewer bytes than declared. */
  ghost predicate OpenSince(ops: seq<Op>, i: nat, ch: byte) {
    && i < |ops| && Opens(ops[i], ch)
    && (forall k :: i < k < |ops| ==> ops[k].Deliver? && !Opens(ops[k], ch))
    && (forall k {:trigger ops[..k]} :: i < k <= |ops| ==> |Gathered(ops[..k], i, ch)| < SizeOf(ops[i], ch))
  }

  /** The last packet completes the frame packet i opened. */
  ghost predicate Completes(ops: seq<Op>, i: nat, ch: byte) {
    && i < |ops| && Opens(ops[i], ch)
    && var n := |ops| - 1;
       var size := SizeOf(ops[i], ch);
       if i == n then |Gathered(ops, i, ch)| >= size
       else OpenSince(ops[..n], i, ch) && CarriesOn(ops, n, ch) && |Gathered(ops, i, ch)| == size
  }

  /** The frame handed on: the completing packet's number, the header and exactly the declared bytes. */
  ghost function FrameOf(ops: seq<Op>, i: nat, ch: byte): Frame
    requires Completes(ops, i, ch)
  {
    Frame(ops[|ops| - 1].message.seqNo, ParseHeader(ops[i].message.data),
          Gathered(ops, i, ch)[..SizeOf(ops[i], ch)])
  }

  // ----- The reassembler's terms and the packets' -----

  lemma {:induction false} SameTerms(data: bytes)
    ensures HasHeader(data) <==> IsHeader(data)
    ensures IsHeader(data) ==>
              var h := ParseHeader(data);
              && h.commandID == data[4] as int + 0x100 * data[5] as int && h.bytesToRead == Declared(data)
              && h.channel == data[12] && h.signCode == data[13] && h.dataType == data[14]
  {
    if |data| >= 16 {
      assert data[..4] == MAGIC_WORD <==> data[0] == 0x58 && data[1] == 0x5A && data[2] == 0x59 && data[3] == 0x48 by {
        assert data[..4] == [data[0], data[1], data[2], data[3]];
      }
      assert data[4..6] == [data[4], data[5]] && data[6..10] == [data[6], data[7], data[8], data[9]];
    }
  }

  function Prefix(ops: seq<Op>): seq<Op>
    requires ops != []
  {
    ops[..|ops| - 1]
  }

  /** One packet later, a frame opened before is still under construction if it is not disturbed and not full. */
  lemma {:induction false} OpenSinceStep(ops: seq<Op>, i: nat, ch: byte)
    requires ops != [] && i < |ops| - 1
    ensures OpenSince(ops, i, ch)
            <==> OpenSince(Prefix(ops), i, ch) && ops[|ops| - 1].Deliver? && !Opens(ops[|ops| - 1], ch)
                 && |Gathered(ops, i, ch)| < SizeOf(ops[i], ch)
  {
    hide Gathered, Opens;
    var n := |ops| - 1;
    assert ops[..|ops|] == ops;
    assert forall k :: 0 <= k <= n ==> Prefix(ops)[..k] == ops[..k];
    if OpenSince(Prefix(ops), i, ch) && ops[n].Deliver? && !Opens(ops[n], ch)
       && |Gathered(ops, i, ch)| < SizeOf(ops[i], ch) {
      forall k | i < k <= |ops| ensures |Gathered(ops[..k], i, ch)| < SizeOf(ops[i], ch) {
        assert k <= n ==> Prefix(ops)[..k] == ops[..k];
      }
    }
    if OpenSince(ops, i, ch) {
      assert |Gathered(ops[..|ops|], i, ch)| < SizeOf(ops[i], ch);
      forall k | i < k <= n ensures |Gathered(Prefix(ops)[..k], i, ch)| < SizeOf(ops[i], ch) {
        assert Prefix(ops)[..k] == ops[..k];
      }
    }
  }

  lemma {:induction false} OpenSinceItself(ops: seq<Op>, ch: byte)
    requires ops != []
    ensures var n := |ops| - 1;
            OpenSince(ops, n, ch) <==> Opens(ops[n], ch) && |Gathered(ops, n, ch)| < SizeOf(ops[n], ch)
  {
    assert ops[..|ops|] == ops;
  }

  // ----- The state -----

  ghost predicate NothingOpen(ops: seq<Op>, ch: byte) {
    forall i: nat :: !OpenSince(ops, i, ch)
  }

  /** The channel's state says what the packets say. */
  ghost predicate StateMeans(ops: seq<Op>, vs: FrameState, ch: byte) {
    && (forall i: nat :: OpenSince(ops, i, ch) ==>
          vs == FrameState(Gathered(ops, i, ch), SizeOf(ops[i], ch), |Gathered(ops, i, ch)|,
                           ParseHeader(ops[i].message.data)))
    && (NothingOpen(ops, ch) ==> vs.Idle())
  }

  ghost predicate Faithful(ops: seq<Op>, a: Assembler) {
    a.lastChannel == ChannelAfter(ops) && forall ch: byte :: StateMeans(ops, a.At(ch), ch)
  }

  /** The channel is not concerned by the last packet. */
  lemma {:induction false} Unconcerned(ops: seq<Op>, vs: FrameState, ch: byte)
    requires ops != [] && StateMeans(Prefix(ops), vs, ch)
    requires ops[|ops| - 1].Deliver? && !Opens(ops[|ops| - 1], ch) && !CarriesOn(ops, |ops| - 1, ch)
    ensures StateMeans(ops, vs, ch)
  {
    hide Opens, CarriesOn;
    var n := |ops| - 1;
    OpenSinceItself(ops, ch);
    forall i: nat ensures OpenSince(ops, i, ch) <==> OpenSince(Prefix(ops), i, ch) {
      if i < n {
        OpenSinceStep(ops, i, ch);
        SameGathered(ops, i, ch);
      }
    }
    forall i: nat | OpenSince(ops, i, ch) ensures Gathered(ops, i, ch) == Gathered(Prefix(ops), i, ch) {
      SameGathered(ops, i, ch);
    }
  }

  lemma {:induction false} SameGathered(ops: seq<Op>, i: nat, ch: byte)
    requires ops != [] && i < |ops| - 1 && !CarriesOn(ops, |ops| - 1, ch)
    ensures Opens(ops[i], ch) ==> Gathered(ops, i, ch) == Gathered(Prefix(ops), i, ch)
    ensures OpenSince(Prefix(ops), i, ch) ==> |Gathered(Prefix(ops), i, ch)| < SizeOf(ops[i], ch)
  {
    hide CarriesOn;
    assert Prefix(ops)[..|ops| - 1] == Prefix(ops);
    if Opens(ops[i], ch) {
      assert Gathered(ops, i, ch) == Gathered(Prefix(ops), i, ch) + [];
    }
  }

  /** A reset closes every channel. */
  lemma {:induction false} MeansAfterReset(ops: seq<Op>, a: Assembler)
    requires ops != [] && ops[|ops| - 1].Reset? && Faithful(Prefix(ops), a)
    ensures Faithful(ops, ResetStates(a))
  {
    hide Gathered;
    var n := |ops| - 1;
    forall i: nat, ch: byte ensures !OpenSince(ops, i, ch) {
      if i < n { OpenSinceStep(ops, i, ch); }
    }
  }

  /** A header packet that opens a frame: it takes its channel over, whatever was under construction there. */
  lemma {:induction false} MeansAfterOpening(ops: seq<Op>, a: Assembler, ch: byte)
    requires ops != [] && Opens(ops[|ops| - 1], ch) && StateMeans(Prefix(ops), a.At(ch), ch)
    ensures var op := ops[|ops| - 1];
            StateMeans(ops, Process(a, op.message.seqNo, op.message.data).At(ch), ch)
  {
    var n := |ops| - 1;
    var data := ops[n].message.data;
    SameTerms(data);
    OpenSinceItself(ops, ch);
    forall i: nat | i != n ensures !OpenSince(ops, i, ch) {
      if i < n { OpenSinceStep(ops, i, ch); }
    }
    assert Gathered(ops, n, ch) == data[16..];
  }

  /** A packet without a header: its channel's frame grows by it, is completed, or is given up as overrun. */
  lemma {:induction false} MeansAfterCarryingOn(ops: seq<Op>, a: Assembler, ch: byte)
    requires ops != [] && CarriesOn(ops, |ops| - 1, ch) && Faithful(Prefix(ops), a)
    ensures var op := ops[|ops| - 1];
            StateMeans(ops, Process(a, op.message.seqNo, op.message.data).At(ch), ch)
  {
    var n := |ops| - 1;
    var data := ops[n].message.data;
    SameTerms(data);
    assert StateMeans(Prefix(ops), a.At(ch), ch);
    assert !Opens(ops[n], ch);
    if i: nat :| OpenSince(Prefix(ops), i, ch) {
      OpenSinceStep(ops, i, ch);
      ShortOfSize(Prefix(ops), i, ch);
      assert Gathered(ops, i, ch) == Gathered(Prefix(ops), i, ch) + data;
      forall j: nat | j != i ensures !OpenSince(ops, j, ch) {
        OnlyOneOpen(ops, i, j, ch);
      }
    } else {
      forall j: nat ensures !OpenSince(ops, j, ch) {
        NoneOpens(ops, j, ch);
      }
    }
  }

  lemma {:induction false} NoneOpens(ops: seq<Op>, j: nat, ch: byte)
    requires ops != [] && !Opens(ops[|ops| - 1], ch) && !OpenSince(Prefix(ops), j, ch)
    ensures !OpenSince(ops, j, ch)
  {
    hide Gathered;
    if j < |ops| - 1 { OpenSinceStep(ops, j, ch); }
  }

  lemma {:induction false} ShortOfSize(ops: seq<Op>, i: nat, ch: byte)
    requires OpenSince(ops, i, ch)
    ensures |Gathered(ops, i, ch)| < SizeOf(ops[i], ch)
  {
    assert ops[..|ops|] == ops;
  }

  lemma {:induction false} OnlyOneOpen(ops: seq<Op>, i: nat, j: nat, ch: byte)
    requires ops != [] && OpenSince(Prefix(ops), i, ch) && i != j && !Opens(ops[|ops| - 1], ch)
    ensures !OpenSince(ops, j, ch) && !OpenSince(Prefix(ops), j, ch)
  {
    hide Gathered;
    if j < |ops| - 1 { OpenSinceStep(ops, j, ch); }
  }

  lemma {:induction false} ChannelNext(ops: seq<Op>)
    requires ops != []
    ensures var last := ops[|ops| - 1];
            ChannelAfter(ops) == if last.Deliver? && IsHeader(last.message.data) then last.message.data[12]
                                 else ChannelAfter(Prefix(ops))
  {
  }

  /** A packet leaves the other channels alone. */
  lemma {:induction false} OtherChannels(a: Assembler, seqNo: uint16, data: bytes, ch: byte)
    requires if IsHeader(data) then data[12] != ch || !(1 <= Declared(data) <= 8_388_608) else a.lastChannel != ch
    ensures Process(a, seqNo, data).At(ch) == a.At(ch)
  {
    SameTerms(data);
  }

  lemma {:induction false} LastNamed(a: Assembler, seqNo: uint16, data: bytes)
    ensures Process(a, seqNo, data).lastChannel == if IsHeader(data) then data[12] else a.lastChannel
  {
    SameTerms(data);
  }

  lemma {:induction false} MeansAfterPacket(ops: seq<Op>, a: Assembler)
    requires ops != [] && ops[|ops| - 1].Deliver? && Faithful(Prefix(ops), a)
    ensures var m := ops[|ops| - 1].message; Faithful(ops, Process(a, m.seqNo, m.data))
  {
    hide Process, StateMeans, IsHeader, Declared, ChannelAfter;
    var n, m := |ops| - 1, ops[|ops| - 1].message;
    ChannelNext(ops);
    LastNamed(a, m.seqNo, m.data);
    forall ch: byte ensures StateMeans(ops, Process(a, m.seqNo, m.data).At(ch), ch) {
      if Opens(ops[n], ch) {
        MeansAfterOpening(ops, a, ch);
      } else if CarriesOn(ops, n, ch) {
        MeansAfterCarryingOn(ops, a, ch);
      } else {
        OtherChannels(a, m.seqNo, m.data, ch);
        Unconcerned(ops, a.At(ch), ch);
      }
    }
  }

  /** After any packets and resets whatsoever, a channel has a frame under construction if and only if some packet
      opened one on it, and since then there was no reset, no other frame opened on it, and never as many bytes
      as declared; it then holds exactly the bytes gathered. */
  lemma {:induction false} StateIsWhatThePacketsSay(ops: seq<Op>)
    ensures Faithful(ops, Apply(NEW_ASSEMBLER, ops))
  {
    hide Process, ResetStates, Faithful;
    if ops == [] {
      NothingSaid();
    } else {
      var n := |ops| - 1;
      StateIsWhatThePacketsSay(ops[..n]);
      if ops[n].Deliver? {
        MeansAfterPacket(ops, Apply(NEW_ASSEMBLER, ops[..n]));
      } else {
        MeansAfterReset(ops, Apply(NEW_ASSEMBLER, ops[..n]));
      }
    }
  }

  lemma {:induction false} NothingSaid()
    ensures Faithful([], NEW_ASSEMBLER)
  {
  }

  // ----- The frames handed on -----

  lemma {:induction false} OpeningEmits(ops: seq<Op>, a: Assembler, ch: byte)
    requires ops != [] && Opens(ops[|ops| - 1], ch)
    ensures var n := |ops| - 1;
            var m := ops[n].message;
            Process(a, m.seqNo, m.data).emitted
            == a.emitted + if Completes(ops, n, ch) then [FrameOf(ops, n, ch)] else []
  {
    SameTerms(ops[|ops| - 1].message.data);
    assert a.emitted + [] == a.emitted;
  }

  lemma {:induction false} CarryingOnEmits(ops: seq<Op>, a: Assembler, ch: byte, i: nat)
    requires ops != [] && CarriesOn(ops, |ops| - 1, ch) && Faithful(Prefix(ops), a) && OpenSince(Prefix(ops), i, ch)
    ensures var m := ops[|ops| - 1].message;
            Process(a, m.seqNo, m.data).emitted
            == a.emitted + if Completes(ops, i, ch) then [FrameOf(ops, i, ch)] else []
  {
    var n, m := |ops| - 1, ops[|ops| - 1].message;
    SameTerms(m.data);
    ShortOfSize(Prefix(ops), i, ch);
    assert StateMeans(Prefix(ops), a.At(ch), ch);
    assert Gathered(ops, i, ch) == Gathered(Prefix(ops), i, ch) + m.data;
    assert a.emitted + [] == a.emitted;
  }

  /** A packet hands a frame on if and only if it completes one: the header packet itself when enough follows
      it, else the packet that brings a frame still under construction to exactly its declared size. */
  lemma {:induction false} FramesAreWhatThePacketsComplete(ops: seq<Op>)
    requires ops != []
    ensures var before, after := Apply(NEW_ASSEMBLER, Prefix(ops)).emitted, Apply(NEW_ASSEMBLER, ops).emitted;
            && (forall i: nat, ch: byte :: Completes(ops, i, ch) ==> after == before + [FrameOf(ops, i, ch)])
            && ((forall i: nat, ch: byte :: !Completes(ops, i, ch)) ==> after == before)
  {
    hide Process, ResetStates, Faithful, StateMeans, FrameOf;
    var n, a := |ops| - 1, Apply(NEW_ASSEMBLER, Prefix(ops));
    StateIsWhatThePacketsSay(Prefix(ops));
    if ops[n].Reset? {
      EmitsNothing(ops, a);
    } else {
      var m := ops[n].message;
      if IsHeader(m.data) && 1 <= Declared(m.data) <= 8_388_608 {
        OpeningEmits(ops, a, m.data[12]);
      } else if !IsHeader(m.data) {
        var ch := ChannelAfter(Prefix(ops));
        if i: nat :| OpenSince(Prefix(ops), i, ch) {
          CarryingOnEmits(ops, a, ch, i);
          forall j: nat, c: byte | Completes(ops, j, c) ensures j == i && c == ch {
            if j != i && c == ch { OnlyOneOpen(ops, i, j, ch); }
          }
        } else {
          EmitsNothing(ops, a);
        }
      } else {
        EmitsNothing(ops, a);
      }
    }
  }

  /** A reset, an ill-sized header and a packet with nothing to carry on hand nothing on. */
  lemma {:induction false} EmitsNothing(ops: seq<Op>, a: Assembler)
    requires ops != [] && Faithful(Prefix(ops), a)
    requires var last := ops[|ops| - 1];
             || last.Reset?
             || (IsHeader(last.message.data) && !(1 <= Declared(last.message.data) <= 8_388_608))
             || (!IsHeader(last.message.data) && NothingOpen(Prefix(ops), ChannelAfter(Prefix(ops))))
    ensures forall i: nat, ch: byte :: !Completes(ops, i, ch)
    ensures ops[|ops| - 1].Reset? ==> ResetStates(a).emitted == a.emitted
    ensures ops[|ops| - 1].Deliver? ==>
              Process(a, ops[|ops| - 1].message.seqNo, ops[|ops| - 1].message.data).emitted == a.emitted
  {
    hide Gathered, ChannelAfter, OpenSince, Process;
    var n, last := |ops| - 1, ops[|ops| - 1];
    forall i: nat, ch: byte ensures !Completes(ops, i, ch) {
      if i < n && CarriesOn(ops, n, ch) {
        assert ch == ChannelAfter(Prefix(ops)) && ops[..n] == Prefix(ops);
        assert !OpenSince(Prefix(ops), i, ch);
      }
    }
    if last.Reset? {
    } else {
      assert StateMeans(Prefix(ops), a.At(a.lastChannel), a.lastChannel);
      NothingToEmit(a, last.message.seqNo, last.message.data);
    }
  }

  lemma {:induction false} NothingToEmit(a: Assembler, seqNo: uint16, data: bytes)
    requires if IsHeader(data) then !(1 <= Declared(data) <= 8_388_608) else a.At(a.lastChannel).Idle()
    ensures Process(a, seqNo, data).emitted == a.emitted
  {
    SameTerms(data);
  }
}
