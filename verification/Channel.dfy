/** The LEO channel: what `LEOChannel.transmit` does to one datagram, and its counters. */
module Channel {
  import opened Bytes

  // One random bit error: which byte and which bit `_inject_bit_error` draws.
  datatype BitError = NoError | BitError(i: nat, k: nat)

  // `transmit` returns None, returns bytes, or raises, drawing a byte of an empty datagram to corrupt.
  datatype Outcome = Lost | Delivered(data: bytes) | Raised

  predicate ValidDraw(data: bytes, error: BitError) {
    error.BitError? ==> error.k < 8 && (error.i < |data| || data == [])
  }

  function Transmitted(data: bytes, visible: bool, lost: bool, error: BitError): (r: Outcome)
    requires ValidDraw(data, error)
    ensures r.Lost? <==> !visible || lost
    ensures r.Raised? <==> visible && !lost && error.BitError? && data == []
    ensures r.Delivered? && error.NoError? ==> r.data == data
    ensures r.Delivered? && error.BitError? ==> error.i < |data| && r.data == Flip(data, error.i, error.k)
    ensures r.Delivered? ==>
      r.data == data || exists i: nat, k: nat :: i < |data| && k < 8 && r.data == Flip(data, i, k)
  {
    if !visible || lost then Lost
    else if error.NoError? then Delivered(data)
    else if data == [] then Raised
    else Delivered(Flip(data, error.i, error.k))
  }

  class LEOChannel {
    var txCount: nat
    var lostCount: nat

    constructor ()
      ensures txCount == 0 && lostCount == 0
    {
      txCount, lostCount := 0, 0;
    }

    method Transmit(data: bytes, visible: bool, lost: bool, error: BitError) returns (r: Outcome)
      requires ValidDraw(data, error)
      modifies this
      ensures r == Transmitted(data, visible, lost, error)
      ensures txCount == old(txCount) + 1
      ensures r.Lost? <==> !visible || lost
      ensures lostCount == old(lostCount) + if !visible || lost then 1 else 0
    {
      txCount := txCount + 1;
      if !visible {
        lostCount := lostCount + 1;
        return Lost;
      }
      if lost {
        lostCount := lostCount + 1;
        return Lost;
      }
      if error.NoError? {
        return Delivered(data);
      }
      if data == [] {
        return Raised;
      }
      var buf := new byte[|data|](i requires 0 <= i < |data| => data[i]);
      InjectBitError(buf, error.i, error.k);
      assert buf[..] == Flip(data, error.i, error.k);
      r := Delivered(buf[..]);
    }

    // Flips one bit of the buffer, in place.
    static method InjectBitError(buf: array<byte>, i: nat, k: nat)
      requires i < buf.Length && k < 8
      modifies buf
      ensures buf[..] == Flip(old(buf[..]), i, k)
    {
      buf[i] := FlipBit(buf[i], k);
    }
  }
}
