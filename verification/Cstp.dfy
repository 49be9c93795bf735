/**
 * CSTP framing over a reused buffer (section 2.2 of draft-mavrogiannopoulos-openconnect-02): the writer shifts
 * a payload in place behind an 8-octet header, or frames its compression; the reader shifts it back.
 * `Frame` and `Decode` say what the two compute; a round trip gives the payload back.
 */
module Cstp {
  import opened Wire

  const BUFFER_SIZE := 2048
  const DATA: byte := 0
  const DPD_REQUEST: byte := 3
  const DPD_RESPONSE: byte := 4
  const DISCONNECT: byte := 5
  const KEEPALIVE: byte := 7
  const COMPRESSED: byte := 8

  /** A compressor and its decompressor; either may fail. The compressor has room for 2040 octets. */
  datatype Codec = Codec(compress: Bytes -> Option<Bytes>, uncompress: Bytes -> Option<Bytes>)

  ghost predicate Fits(codec: Codec) {
    forall p :: codec.compress(p).Some? ==> |codec.compress(p).value| <= BUFFER_SIZE - 8
  }

  ghost predicate Inverts(codec: Codec) {
    forall p :: codec.compress(p).Some? ==> codec.uncompress(codec.compress(p).value) == Some(p)
  }

  // ----- what goes over the wire

  function Header(kind: byte, length: uint16): (h: Bytes)
    ensures |h| == 8
  {
    [83, 84, 70, 1] + Put16(length) + [kind, 0]
  }

  function Frame(kind: byte, body: Bytes): Bytes
    requires |body| < 0x1_0000
  {
    Header(kind, |body|) + body
  }

  function ControlFrame(kind: byte): Bytes {
    [83, 84, 70, 1, 0, 0, kind, 0]
  }

  /** The compression of a payload, if it is on, worth trying, and smaller. */
  function Smaller(p: Bytes, codec: Option<Codec>, noCompressLimit: int): Option<Bytes> {
    if codec.None? || |p| <= noCompressLimit then None
    else
      var c := codec.value.compress(p);
      if c.Some? && |c.value| < |p| then c else None
  }

  /** The frame of a payload, or None if it has no room. */
  function DataFrame(p: Bytes, codec: Option<Codec>, noCompressLimit: int): Option<Bytes>
    requires |p| <= BUFFER_SIZE
  {
    var c := Smaller(p, codec, noCompressLimit);
    if c.Some? then Some(Frame(COMPRESSED, c.value))
    else if |p| + 8 > BUFFER_SIZE then None
    else Some(Frame(DATA, p))
  }

  /** What the reader makes of one read. */
  datatype Received = Ignored | Control(kind: byte) | Data(payload: Bytes)

  predicate ValidDataLen(dataLen: uint16, n: int) {
    dataLen != 0 && 8 + dataLen <= BUFFER_SIZE && 8 + dataLen <= n
  }

  /** A function of the octets read, and of nothing else the buffer may hold. */
  function Decode(read: Bytes, codec: Option<Codec>): Received {
    if |read| < 7 then Ignored
    else
      var kind := read[6];
      if kind == COMPRESSED then
        if codec.None? || |read| < 9 then Ignored
        else
          var p := codec.value.uncompress(read[8..]);
          if p.Some? && 0 < |p.value| <= BUFFER_SIZE - 8 then Data(p.value) else Ignored
      else if kind == DATA then
        var dataLen := Be16(read[4], read[5]);
        if ValidDataLen(dataLen, |read|) then Data(read[8..8 + dataLen]) else Ignored
      else if kind == KEEPALIVE || kind == DISCONNECT || kind == DPD_REQUEST || kind == DPD_RESPONSE then Control(kind)
      else Ignored
  }

  // ----- the buffer

  /** A pooled buffer of which the first `length` octets are in use. */
  class Payload {
    const data: array<byte>
    var length: nat
    var kind: byte

    ghost predicate Valid()
      reads this
    {
      data.Length == BUFFER_SIZE && length <= BUFFER_SIZE
    }

    ghost function Contents(): Bytes
      reads this, data
      requires Valid()
    {
      data[..length]
    }

    constructor ()
      ensures Valid() && fresh(data) && length == BUFFER_SIZE && kind == DATA
      ensures forall i :: 0 <= i < BUFFER_SIZE ==> data[i] == 0
    {
      data := new byte[BUFFER_SIZE](_ => 0);
      length, kind := BUFFER_SIZE, DATA;
    }

    /** Replaces octets from `at` on, and cuts off what is behind them. */
    method AppendAt(at: nat, s: Bytes)
      requires Valid() && at <= length && at + |s| <= BUFFER_SIZE
      modifies this`length, data
      ensures Valid() && Contents() == old(Contents())[..at] + s
    {
      ghost var front := data[..at];
      for i := 0 to |s|
        invariant data[..at] == front && data[at..at + i] == s[..i]
      {
        data[at + i] := s[i];
        assert data[at..at + i + 1] == data[at..at + i] + [s[i]];
      }
      length := at + |s|;
      assert data[..length] == data[..at] + data[at..at + |s|];
    }

    /** Moves the octets up by 8, the last first. */
    method ShiftUp()
      requires Valid() && length + 8 <= BUFFER_SIZE
      modifies this`length, data
      ensures Valid() && length == old(length) + 8
      ensures data[8..length] == old(Contents())
    {
      ghost var before := Contents();
      var i: nat := length;
      while i > 0
        invariant i <= length && length == |before| && length + 8 <= data.Length
        invariant forall j :: 0 <= j < i ==> data[j] == before[j]
        invariant forall j :: i <= j < length ==> data[j + 8] == before[j]
      {
        i := i - 1;
        data[i + 8] := data[i];
      }
      length := length + 8;
      assert forall j :: 0 <= j < |before| ==> data[8..length][j] == data[j + 8];
    }

    /** Moves `n` octets down by 8, the first first. */
    method ShiftDown(n: nat)
      requires Valid() && n + 8 <= BUFFER_SIZE
      modifies this`length, data
      ensures Valid() && Contents() == old(data[8..8 + n])
    {
      ghost var before := data[8..8 + n];
      for i := 0 to n
        invariant forall j :: 0 <= j < i ==> data[j] == before[j]
        invariant forall j :: i <= j < n ==> data[j + 8] == before[j]
      {
        data[i] := data[i + 8];
      }
      length := n;
    }

    /** Puts a header over the first 8 octets. */
    method SetHeader(frameKind: byte, len: uint16)
      requires Valid() && length >= 8
      modifies data
      ensures Contents() == Header(frameKind, len) + old(data[8..length])
    {
      ghost var body := data[8..length];
      data[0], data[1], data[2], data[3] := 83, 84, 70, 1;
      data[4], data[5] := Put16(len)[0], Put16(len)[1];
      data[6], data[7] := frameKind, 0;
      assert data[..8] == Header(frameKind, len);
      assert data[8..length] == body;
      assert data[..length] == data[..8] + data[8..length];
    }

    /** The writer: makes a frame of the payload, in place; false if it has no room. */
    method Write(codec: Option<Codec>, noCompressLimit: int) returns (sent: bool)
      requires Valid() && (codec.Some? ==> Fits(codec.value))
      modifies this`length, data
      ensures Valid() && (!sent ==> Contents() == old(Contents()))
      ensures kind == DATA ==>
                var f := DataFrame(old(Contents()), codec, noCompressLimit);
                sent == f.Some? && (sent ==> Contents() == f.value)
      ensures kind != DATA ==> sent && Contents() == ControlFrame(kind)
    {
      if kind == 0x00 {
        if codec.Some? && length > noCompressLimit {
          var c := codec.value.compress(data[..length]);
          if c.Some? && |c.value| < length {
            AppendAt(0, Header(0x08, |c.value|) + c.value);
            return true;
          }
        }
        if length + 8 > data.Length {
          return false;
        }
        ShiftUp();
        SetHeader(0x00, length - 8);
        return true;
      }
      AppendAt(0, [83, 84, 70, 1, 0, 0, kind, 0]);
      return true;
    }

    /** The reader, after `n` octets have been read into the buffer. */
    method Read(n: nat, codec: Option<Codec>) returns (got: Received)
      requires Valid() && length == BUFFER_SIZE && n <= BUFFER_SIZE
      modifies this`length, data
      ensures Valid() && got == Decode(old(data[..n]), codec)
      ensures got.Data? ==> Contents() == got.payload
    {
      ghost var read := data[..n];
      assert forall i :: 0 <= i < n ==> read[i] == data[i];
      if n < 7 {
        return Ignored;
      }
      if data[6] == 0x08 {
        if codec.None? || n < 9 {
          return Ignored;
        }
        var p := codec.value.uncompress(data[8..n]);
        assert data[8..n] == read[8..];
        if p.None? || |p.value| == 0 || 8 + |p.value| > BUFFER_SIZE {
          return Ignored;
        }
        AppendAt(8, p.value);
        assert data[8..8 + |p.value|] == p.value by {
          assert data[..length][8..] == p.value;
        }
        ShiftDown(|p.value|);
        return Data(p.value);
      }
      if data[6] == 0x00 {
        var dataLen := Be16(data[4], data[5]);
        if dataLen == 0 || 8 + dataLen > BUFFER_SIZE || 8 + dataLen > n {
          return Ignored;
        }
        ghost var body := read[8..8 + dataLen];
        assert forall i :: 0 <= i < dataLen ==> body[i] == read[8 + i] == data[8 + i];
        assert data[8..8 + dataLen] == body;
        ShiftDown(dataLen);
        return Data(data[..dataLen]);
      }
      if data[6] == 0x07 || data[6] == 0x05 || data[6] == 0x03 || data[6] == 0x04 {
        return Control(data[6]);
      }
      return Ignored;
    }
  }

  // ----- round trips

  lemma {:induction false} FrameParts(kind: byte, body: Bytes, f: Bytes)
    requires |body| < 0x1_0000 && f == Frame(kind, body)
    ensures |f| == 8 + |body| && f[6] == kind && Be16(f[4], f[5]) == |body| && f[8..] == body
  {
  }

  /**
   * Reading a written frame gives the payload back, compressed or not, exactly if the payload has 1 to 2040
   * octets and is not compressed to nothing.
   */
  lemma {:induction false} RoundTripIff(p: Bytes, codec: Option<Codec>, noCompressLimit: int)
    requires |p| <= BUFFER_SIZE && (codec.Some? ==> Fits(codec.value) && Inverts(codec.value))
    ensures var f := DataFrame(p, codec, noCompressLimit);
            f.Some? && Decode(f.value, codec) == Data(p)
            <==> 1 <= |p| <= 2040 && Smaller(p, codec, noCompressLimit) != Some([])
  {
    var c := Smaller(p, codec, noCompressLimit);
    if c.Some? {
      FrameParts(COMPRESSED, c.value, Frame(COMPRESSED, c.value));
    } else if |p| + 8 <= BUFFER_SIZE {
      FrameParts(DATA, p, Frame(DATA, p));
    }
  }

  /** A control frame is the magic octets with no body and the kind, and is read as that control. */
  lemma {:induction false} ControlRoundTrip(kind: byte, codec: Option<Codec>)
    requires kind == KEEPALIVE || kind == DISCONNECT || kind == DPD_REQUEST || kind == DPD_RESPONSE
    ensures ControlFrame(kind) == ['S' as byte, 'T' as byte, 'F' as byte, 1, 0, 0, kind, 0]
    ensures Decode(ControlFrame(kind), codec) == Control(kind)
  {
  }

  /** Whatever comes behind the announced octets of a data frame does not matter. */
  lemma {:induction false} NothingBeyondIsRead(p: Bytes, codec: Option<Codec>, behind: Bytes)
    requires 1 <= |p| <= 2040
    ensures Decode(Frame(DATA, p) + behind, codec) == Data(p)
  {
  }

  // ----- what a frame looks like, and when it is compressed

  /** A compression worth sending. */
  predicate Shorter(p: Bytes, codec: Option<Codec>, noCompressLimit: int) {
    && codec.Some? && |p| > noCompressLimit
    && codec.value.compress(p).Some? && |codec.value.compress(p).value| < |p|
  }

  /**
   * A payload is compressed exactly if that is on, it is longer than the limit, and it gets shorter; otherwise it is
   * refused exactly if it has more than 2040 octets. A frame starts with its magic octets, the length of its
   * body and its kind.
   */
  lemma {:induction false} FramedIs(p: Bytes, codec: Option<Codec>, noCompressLimit: int)
    requires |p| <= BUFFER_SIZE && (codec.Some? ==> Fits(codec.value))
    ensures var f := DataFrame(p, codec, noCompressLimit);
            var body := if Shorter(p, codec, noCompressLimit) then codec.value.compress(p).value else p;
            && (f.None? <==> !Shorter(p, codec, noCompressLimit) && |p| > 2040)
            && (f.Some? ==>
                  && |f.value| == 8 + |body| && f.value[8..] == body
                  && f.value[0] as char == 'S' && f.value[1] as char == 'T' && f.value[2] as char == 'F'
                  && f.value[3] == 1
                  && 0x100 * f.value[4] as nat + f.value[5] as nat == |body| && f.value[7] == 0
                  && f.value[6] == if Shorter(p, codec, noCompressLimit) then 8 else 0)
  {
    var c := Smaller(p, codec, noCompressLimit);
    if c.Some? {
      FrameParts(COMPRESSED, c.value, Frame(COMPRESSED, c.value));
    } else if |p| + 8 <= BUFFER_SIZE {
      FrameParts(DATA, p, Frame(DATA, p));
    }
  }

  /** What is read: a data frame gives its announced octets if they are there and fit, and nothing else does. */
  lemma {:induction false} DataIsRead(read: Bytes, codec: Option<Codec>, p: Bytes)
    requires |read| >= 7 && read[6] == 0
    ensures var n := 0x100 * read[4] as nat + read[5] as nat;
            Decode(read, codec) == Data(p) <==> 1 <= n <= 2040 && 8 + n <= |read| && p == read[8..8 + n]
    ensures Decode(read, codec).Data? || Decode(read, codec).Ignored?
  {
  }

  /** A compressed frame gives what its octets uncompress to, if that is neither nothing nor too long. */
  lemma {:induction false} CompressedIsRead(read: Bytes, codec: Option<Codec>, p: Bytes)
    requires |read| >= 7 && read[6] == 8
    ensures Decode(read, codec) == Data(p)
       <==> codec.Some? && |read| >= 9 && codec.value.uncompress(read[8..]) == Some(p) && 1 <= |p| <= 2040
    ensures Decode(read, codec).Data? || Decode(read, codec).Ignored?
  {
  }

  /** Too little to hold a kind, and every other kind, is ignored. */
  lemma {:induction false} OthersAreIgnored(read: Bytes, codec: Option<Codec>)
    requires |read| >= 7 ==> read[6] !in {0, 3, 4, 5, 7, 8}
    ensures Decode(read, codec) == Ignored
  {
  }
}
