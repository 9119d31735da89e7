/** The encoder of pppoe, which writes a frame into a buffer, and the decoder,
    which keeps its state from one read to the next. */
module AsyncPppoe {
  import opened Octets
  import opened AsyncFraming
  import Fcs

  lemma RunStep(d: Decoder, s: bytes, i: nat)
    requires i < |s|
    ensures Run(d, s[i..]) == Run(StepByte(d, s[i]), s[i + 1..])
  {
    assert s[i..][0] == s[i] && s[i..][1..] == s[i + 1..];
  }

  lemma {:induction false} DeadForGood(d: Decoder, s: bytes)
    requires d.phase == Dead
    ensures Run(d, s) == d
    decreases |s|
  {
    if s != [] {
      DeadForGood(d, s[1..]);
    }
  }

  class AsyncReader {
    var state: Phase
    var size: nat
    var escaped: bool
    const payload: array<byte>
    var sent: seq<bytes>

    ghost predicate Valid()
      reads this
    {
      payload.Length == ETH_JUMBO_LEN && size <= ETH_JUMBO_LEN - 4
    }

    ghost function View(): Decoder
      reads this, payload
      requires Valid()
    {
      Decoder(state, payload[..size], escaped, sent)
    }

    /** `initPPP` */
    constructor ()
      ensures Valid() && View() == INITIAL && fresh(payload)
    {
      state, size, escaped, sent := WaitForAddr, 0, false, [];
      payload := new byte[ETH_JUMBO_LEN](_ => 0);
    }

    /** One byte while a packet is being built. */
    method Build(c: byte)
      requires Valid() && state == Building
      modifies this, payload
      ensures Valid() && View() == StepByte(old(View()), c)
    {
      if c == FRAME_ESC {
        escaped := true;
      } else if c == FRAME_FLAG {
        if size < 2 {
          state := Dead;
          return;
        }
        sent := sent + [payload[..size - 2]];
        state, size, escaped := WaitForAddr, 0, false;
        assert old(payload[..size])[..old(size) - 2] == old(payload[..size - 2]);
      } else if size >= ETH_JUMBO_LEN - 4 {
        state, size, escaped := WaitForAddr, 0, false;
      } else {
        payload[size] := if escaped then Enc(c) else c;
        size := size + 1;
        escaped := false;
      }
    }

    /** `asyncReadFromPPP` on what one read returned. */
    method Read(buf: bytes)
      requires Valid() && 0 < |buf| <= READ_CHUNK && state != Dead
      modifies this, payload
      ensures Valid() && View() == Run(old(View()), buf)
    {
      hide StepByte;
      var ptr := 0;
      assert buf[0..] == buf;
      while ptr < |buf|
        invariant Valid() && ptr <= |buf| && state != Dead
        invariant Run(View(), buf[ptr..]) == Run(old(View()), buf)
      {
        ghost var before := ptr;
        if state == WaitForAddr {
          ptr := SkipToAddr(buf, ptr);
        }
        if state == WaitForAddr {
          return;
        }
        ptr := SkipProto(buf, ptr);
        if state == DropProto {
          return;
        }
        while ptr < |buf| && state == Building
          invariant Valid() && before <= ptr <= |buf| && (ptr == before ==> state == Building)
          invariant Run(View(), buf[ptr..]) == Run(old(View()), buf)
        {
          RunStep(View(), buf, ptr);
          Build(buf[ptr]);
          ptr := ptr + 1;
        }
        if state == Dead {
          DeadForGood(View(), buf[ptr..]);
          return;
        }
      }
    }

    method SkipToAddr(buf: bytes, start: nat) returns (ptr: nat)
      requires Valid() && start < |buf| && state == WaitForAddr
      modifies this`state
      ensures Valid() && start < ptr <= |buf| && (state == DropProto || (state == WaitForAddr && ptr == |buf|))
      ensures Run(View(), buf[ptr..]) == Run(old(View()), buf[start..])
    {
      ptr := start;
      while ptr < |buf|
        invariant start <= ptr <= |buf| && state == WaitForAddr && Valid()
        invariant Run(View(), buf[ptr..]) == Run(old(View()), buf[start..])
      {
        RunStep(View(), buf, ptr);
        ptr := ptr + 1;
        if buf[ptr - 1] == FRAME_ADDR {
          state := DropProto;
          return;
        }
      }
    }

    method SkipProto(buf: bytes, start: nat) returns (ptr: nat)
      requires Valid() && start <= |buf| && state in {DropProto, Building}
      modifies this`state
      ensures Valid() && start <= ptr <= |buf| && (old(state) == Building ==> ptr == start)
      ensures state == Building || (state == DropProto && ptr == |buf|)
      ensures Run(View(), buf[ptr..]) == Run(old(View()), buf[start..])
    {
      ptr := start;
      while ptr < |buf| && state == DropProto
        invariant start <= ptr <= |buf| && state in {DropProto, Building} && Valid()
        invariant old(state) == Building ==> ptr == start && state == Building
        invariant Run(View(), buf[ptr..]) == Run(old(View()), buf[start..])
      {
        RunStep(View(), buf, ptr);
        ptr := ptr + 1;
        if buf[ptr - 1] == Enc(FRAME_CTRL) {
          state := Building;
        }
      }
    }
  }

  // ------------------------------------------------------------------- encoder

  method PutStuffed(buf: array<byte>, at: nat, s: bytes) returns (ptr: nat)
    requires at + 2 * |s| <= buf.Length
    modifies buf
    ensures at <= ptr <= at + 2 * |s| && buf[..ptr] == old(buf[..at]) + Stuff(s)
  {
    hide Enc;
    ptr := at;
    StuffNothing();
    for i := 0 to |s|
      invariant at <= ptr <= at + 2 * i && buf[..ptr] == old(buf[..at]) + Stuff(s[..i])
    {
      ghost var was := buf[..ptr];
      var c := s[i];
      assert s[..i + 1] == s[..i] + [c];
      StuffConcat(s[..i], [c]);
      assert [c][1..] == [];
      if MustEscape(c) {
        buf[ptr], buf[ptr + 1] := FRAME_ESC, Enc(c);
        ptr := ptr + 2;
        assert buf[..ptr] == was + [FRAME_ESC, Enc(c)];
      } else {
        buf[ptr] := c;
        ptr := ptr + 1;
        assert buf[..ptr] == was + [c];
      }
    }
    assert s[..|s|] == s;
  }

  method FrameCheck(payload: bytes) returns (tail: bytes)
    ensures tail == Tail(payload)
  {
    hide Fcs.Divide, Fcs.Trailer, AsBits;
    assert [FRAME_ADDR as bv8, FRAME_CTRL as bv8] == [0xFF, 0x03];
    var fcs := Fcs.PppFcs16(Fcs.PPP_INITFCS, [FRAME_ADDR as bv8, FRAME_CTRL as bv8]);
    fcs := Fcs.PppFcs16(fcs, AsBits(payload));
    var t := Fcs.Trailer(fcs);
    tail := [t[0] as int, t[1] as int];
  }

  /** The encoder of `asyncReadFromEth`; the buffer is never overrun. */
  method EncodeFrame(payload: bytes) returns (pppBuf: array<byte>, ptr: nat)
    requires |payload| <= ETH_JUMBO_LEN
    ensures fresh(pppBuf) && ptr <= pppBuf.Length && pppBuf[..ptr] == Encode(payload)
  {
    hide Stuff, Enc, Tail;
    var tail := FrameCheck(payload);
    pppBuf := new byte[4096](_ => 0);
    pppBuf[0], pppBuf[1], pppBuf[2], pppBuf[3] := FRAME_FLAG, FRAME_ADDR, FRAME_ESC, Enc(FRAME_CTRL);
    assert pppBuf[..4] == PREAMBLE;
    ptr := PutStuffed(pppBuf, 4, payload);
    ptr := PutStuffed(pppBuf, ptr, tail);
    StuffConcat(payload, tail);
    ghost var was := pppBuf[..ptr];
    assert was == PREAMBLE + Stuff(payload + tail);
    pppBuf[ptr] := FRAME_FLAG;
    ptr := ptr + 1;
    assert pppBuf[..ptr] == was + [FRAME_FLAG] == Encode(payload);
  }
}
