/**
 * The boundary to the BLE stack: a GATT characteristic whose value is set
 * and then notified to the connected central.
 */
module Gatt {
  import opened Framing

  class Characteristic {
    /** The value last handed to `setValue` (the stack keeps its own copy). */
    var value: seq<byte>
    /**
     * Every value handed to `notify()` so far, in order. Whether a central
     * is subscribed and whether a packet fits its MTU are not modelled.
     */
    ghost var notified: seq<seq<byte>>

    constructor ()
      ensures value == [] && notified == []
    {
      value := [];
      notified := [];
    }

    /** `setValue(data, len)`: the stack copies `len` bytes out of the caller's buffer. */
    method SetValue(v: seq<byte>)
      modifies this`value
      ensures value == v
    {
      value := v;
    }

    /** `notify()`: the current value is handed to the stack as one packet. */
    method Notify()
      modifies this`notified
      ensures notified == old(notified) + [value]
    {
      notified := notified + [value];
    }
  }

  /**
   * The chunk loop of the senders without a trailer, `for (int i = 0;
   * i < len; i += c)`: notifies `buf[i .. i + min(c, len - i))` on `ch` for
   * each step, which is exactly the chunks of `buf[0..len)`.
   */
  method NotifyChunks(ch: Characteristic, buf: array<byte>, len: nat, c: nat)
    requires c > 0 && len <= buf.Length && LoopFits(len, c)
    modifies ch
    ensures ch.notified == old(ch.notified) + Chunks(buf[..len], c)
  {
    ghost var payload := buf[..len];
    ghost var start := ch.notified;
    ghost var sent: seq<seq<byte>> := [];
    var i := 0;
    while i < len
      invariant 0 <= i
      invariant ch.notified == start + sent
      invariant i < len ==> sent + Chunks(payload[i..], c) == Chunks(payload, c)
      invariant i >= len ==> sent == Chunks(payload, c)
    {
      assert i + c < INT_LIMIT;
      var currentChunkSize := Min(c, len - i);
      ghost var chunk := payload[i..i + currentChunkSize];
      ChunkStep(payload, c, i, sent, chunk);
      assert buf[i..i + currentChunkSize] == chunk;
      ch.SetValue(buf[i..i + currentChunkSize]);
      ch.Notify();
      sent := sent + [chunk];
      i := i + c;
    }
  }
}
