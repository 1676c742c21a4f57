/** The relay's packet buffer and one round of its forwarding loop. */
module Relay {
  import opened Common
  import opened Cbpf
  import opened Vlan
  import opened Eoe
  import opened Transfer

  const IP_MAXPACKET: nat := 65535

  /** What a service does to a packet on its way. */
  datatype Edit = Plain | AddEoe(layout: Layout) | DelEoe | Retagged(dir: Direction)

  /** Retagging a frame of any length: the setters look at bytes 12 to 15 of the buffer even behind
      the end of a short frame, where a stale byte may lie. */
  function RetagAny(dir: Direction, frame: seq<Byte>, stale: Byte): (r: seq<Byte>)
    ensures |r| == |frame| && (|frame| <= 14 ==> r == frame)
  {
    if |frame| >= 16 then Retag(dir, frame)
    else if |frame| == 15 then Retag(dir, frame + [stale])[..15]
    else frame
  }

  /** The frame that goes out for a frame that came in. */
  function Edited(edit: Edit, frame: seq<Byte>, stale: Byte): seq<Byte>
    requires edit.DelEoe? ==> |frame| >= HEADER_SIZE
  {
    match edit
    case Plain => frame
    case AddEoe(layout) => Encapsulate(frame, layout)
    case DelEoe => Decapsulate(frame)
    case Retagged(dir) => RetagAny(dir, frame, stale)
  }

  /** What one read gets of a packet: a longer packet is cut to the room behind the window's start. */
  function Received(edit: Edit, packet: seq<Byte>): (r: seq<Byte>)
    ensures r <= packet
    ensures |packet| <= 65535 ==> r == packet
  {
    packet[..Min(|packet|, IP_MAXPACKET + if edit.DelEoe? then HEADER_SIZE else 0)]
  }

  /** A window of `size` bytes at `data` into an allocation. */
  class Buffer {
    const base: array<Byte>
    var data: nat
    var size: nat

    ghost predicate Valid()
      reads this
    {
      data + size <= base.Length
    }

    ghost function Window(): seq<Byte>
      requires Valid()
      reads this, base
    {
      base[data..data + size]
    }

    /** packetBufferInit: EoE needs room for a header as well. */
    constructor (edit: Edit)
      ensures Valid() && fresh(base) && data == size == 0
      ensures base.Length == IP_MAXPACKET + if edit.AddEoe? || edit.DelEoe? then HEADER_SIZE else 0
    {
      base := new Byte[IP_MAXPACKET + if edit.AddEoe? || edit.DelEoe? then HEADER_SIZE else 0](_ => 0);
      data, size := 0, 0;
    }

    /** bufferReset, and room in front for the header that is going to be added. */
    method Prepare(edit: Edit)
      requires edit.AddEoe? ==> base.Length >= HEADER_SIZE
      modifies this`data, this`size
      ensures Valid() && size == 0 && data == if edit.AddEoe? then HEADER_SIZE else 0
    {
      data, size := 0, 0;
      if edit.AddEoe? {
        data := data + HEADER_SIZE;
      }
    }

    /** read() of one packet into the window, cut to the room there is, and bufferSetDataSize. */
    method Fill(packet: seq<Byte>)
      requires Valid()
      modifies this`size, base
      ensures Valid() && Window() == packet[..Min(|packet|, base.Length - data)]
      ensures base[data + size..] == old(base[..])[data + size..]
    {
      var n := Min(|packet|, base.Length - data);
      Copy(base, data, packet[..n]);
      size := n;
    }

    /** extendPacketPayload. */
    method Extend()
      requires Valid() && data + MIN_PAYLOAD <= base.Length
      modifies this`size, base
      ensures Valid() && Window() == Padded(old(Window()))
    {
      if size < MIN_PAYLOAD {
        ghost var w := Window();
        var i := size;
        while i < MIN_PAYLOAD
          invariant size <= i <= MIN_PAYLOAD && base[data..data + i] == w + Zeros(i - size)
        {
          base[data + i] := 0;
          i := i + 1;
        }
        size := MIN_PAYLOAD;
      }
    }

    /** addEoeHeader: pad, then step back and write the header in front. */
    method AddHeader(layout: Layout)
      requires Valid() && HEADER_SIZE <= data && data + MIN_PAYLOAD <= base.Length
      modifies this`data, this`size, base
      ensures Valid() && Window() == Encapsulate(old(Window()), layout)
    {
      Extend();
      var header := Header(size, layout);
      ghost var before, payload := base[..], size;
      data, size := data - HEADER_SIZE, size + HEADER_SIZE;
      Copy(base, data, header);
      HeaderInFront(before, base[..], data, header, payload);
    }

    /** delEoeHeader: `size` is a size_t, so a frame without a header underflows; the window stays
        inside the buffer exactly when there was a header. */
    method DelHeader()
      requires Valid() && base.Length < TWO_32
      modifies this`data, this`size
      ensures Valid() <==> old(size) >= HEADER_SIZE
      ensures old(size) >= HEADER_SIZE ==> Window() == Decapsulate(old(Window()))
    {
      data := data + HEADER_SIZE;
      size := (size - HEADER_SIZE) % TWO_64;
    }

    /** setDhcpVlan and setOamVlan, on the bytes of the buffer. */
    method SetVlan(dir: Direction)
      requires Valid() && data + 16 <= base.Length
      modifies base
      ensures Window() == RetagAny(dir, old(Window()), old(base[data + 15]))
    {
      var w := base[data..data + 16];
      var t := NewTci(dir, Tci(w));
      ghost var before := base[..];
      if Tagged(w) {
        var high: Byte, low: Byte := t / 256, t % 256;
        base[data + 14] := high;
        base[data + 15] := low;
        assert base[..] == before[data + 14 := high][data + 15 := low];
      }
      assert before[data..data + 16] == w;
      RetagInBuffer(dir, before, base[..], data, size, t);
    }

    method Apply(edit: Edit)
      requires Valid() && base.Length < TWO_32
      requires edit.AddEoe? ==> HEADER_SIZE <= data && data + MIN_PAYLOAD <= base.Length
      requires edit.Retagged? ==> data + 16 <= base.Length
      modifies this`data, this`size, base
      ensures Valid() <==> (edit.DelEoe? ==> old(size) >= HEADER_SIZE)
      ensures Valid() ==>
        Window() == Edited(edit, old(Window()), if edit.Retagged? then old(base[data + 15]) else 0)
    {
      match edit
      case Plain =>
      case AddEoe(layout) => AddHeader(layout);
      case DelEoe => DelHeader();
      case Retagged(dir) => SetVlan(dir);
    }

    /** One round of forward_packet_from_to. What was received of a packet leaves as its edited
        form, as far as the writes let it through; only a packet to unwrap that
        is shorter than a header moves the window out of the buffer, and with the EoE filter on the
        network side there is none. */
    method Forward(edit: Edit, packet: seq<Byte>, calls: seq<Outcome>)
      returns (inside: bool, sent: seq<Byte>, status: Status)
      requires base.Length == IP_MAXPACKET + if edit.AddEoe? || edit.DelEoe? then HEADER_SIZE else 0
      modifies this`data, this`size, base
      ensures inside <==> (edit.DelEoe? ==> |Received(edit, packet)| >= HEADER_SIZE)
      ensures Accepts(EOE_FILTER, packet) ==> inside
      ensures inside ==>
        var frame := Edited(edit, Received(edit, packet), old(base[15]));
        && sent == frame[..Min(|frame|, Total(calls))]
        && status == if Total(calls) >= |frame| then Complete else Reason(calls)
    {
      Prepare(edit);
      Fill(packet);
      ghost var received := Received(edit, packet);
      assert Window() == received;
      if edit.Retagged? {
        assert |received| == 15 ==> base[15] == base[15..][0] == old(base[..])[15..][0];
        StaleByte(edit, received, base[15], old(base[15]));
      }
      inside, sent, status := !edit.DelEoe? || size >= HEADER_SIZE, [], Ended;
      Apply(edit);
      if inside {
        sent, status := WriteLoop(base[data..data + size], calls);
      }
      if Accepts(EOE_FILTER, packet) {
        AcceptedFramesAreLong(packet);
      }
    }
  }

  /** A header written in front of a window of n bytes. */
  lemma HeaderInFront(before: seq<Byte>, after: seq<Byte>, at: nat, header: seq<Byte>, n: nat)
    requires at + |header| + n <= |before| && after == Overwrite(before, at, header)
    ensures after[at..at + |header| + n] == header + before[at + |header|..at + |header| + n]
  {
    var window, payload := after[at..at + |header| + n], before[at + |header|..at + |header| + n];
    forall i | 0 <= i < |window| ensures window[i] == (header + payload)[i] {
      assert window[i] == after[at + i];
    }
  }

  /** Only a frame of 15 bytes meets a stale byte. */
  lemma StaleByte(edit: Edit, frame: seq<Byte>, a: Byte, b: Byte)
    requires edit.DelEoe? ==> |frame| >= HEADER_SIZE
    requires edit.Retagged? && |frame| == 15 ==> a == b
    ensures Edited(edit, frame, a) == Edited(edit, frame, b)
  {
  }

  /** Rewriting the tag in the buffer rewrites it in the window, as far as the window reaches. */
  lemma RetagInBuffer(dir: Direction, before: seq<Byte>, after: seq<Byte>, data: nat, size: nat, t: nat)
    requires data + 16 <= |before| && data + size <= |before| && t < UINT16
    requires var w := before[data..data + 16];
      && t == NewTci(dir, Tci(w))
      && after == if Tagged(w) then before[data + 14 := t / 256][data + 15 := t % 256] else before
    ensures after[data..data + size] == RetagAny(dir, before[data..data + size], before[data + 15])
  {
    var w, frame := before[data..data + 16], before[data..data + size];
    if size >= 16 {
      assert Half(frame, 12) == Half(w, 12) && Half(frame, 14) == Half(w, 14);
    } else if size == 15 {
      assert frame + [before[data + 15]] == w;
      assert after[data..data + 16] == Retag(dir, w);
      assert after[data..data + 15] == after[data..data + 16][..15];
    }
  }
}
