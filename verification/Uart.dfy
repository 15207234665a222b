/** The interrupt-driven UART driver over two rings. */
module Uart {
  import opened Allocator
  import opened Buffers
  import opened UartStream

  const KDEV_UART_RING_SIZE: nat := 4096

  /** struct dev_uart with the hardware behind its registers: FR.TXFF says that txFifo is full, FR.RXFE
      that rxFifo is empty, writing DR appends to txFifo and reading DR takes the head of rxFifo. The
      ghost fields record the streams. */
  class Uart {
    const tx: Ring
    const rx: Ring
    const fifoSize: nat
    var txFifo: seq<Byte>
    var rxFifo: seq<Byte>
    ghost var accepted: seq<Byte>
    ghost var sent: seq<Byte>
    ghost var wire: seq<Byte>
    ghost var arrived: seq<Byte>
    ghost var delivered: seq<Byte>

    ghost predicate Separate()
      reads this
    {
      tx != rx && tx.buffer != rx.buffer && fifoSize > 0
    }

    ghost predicate Valid()
      reads this, tx, rx, tx.buffer, rx.buffer
    {
      && Separate() && tx.Valid() && rx.Valid() && tx.buffer.Length == rx.buffer.Length
      && Streams(Abs(), Sized())
    }

    ghost function Sized(): Sizes {
      Sizes(tx.buffer.Length, fifoSize)
    }

    ghost function Abs(): Line
      requires tx.Valid() && rx.Valid()
      reads this, tx, rx, tx.buffer, rx.buffer
    {
      Line(accepted, tx.Contents(), sent, txFifo, wire, arrived, rxFifo, rx.Contents(), delivered)
    }

    /** dev_uart_init, as far as the rings go. */
    constructor (fifoSize: nat)
      requires fifoSize > 0
      ensures Valid() && Abs() == Line([], [], [], [], [], [], [], [], [])
      ensures fresh(tx) && fresh(rx) && fresh(tx.buffer) && fresh(rx.buffer)
      ensures tx.buffer.Length == rx.buffer.Length == 4096 && this.fifoSize == fifoSize
    {
      tx := new Ring(KDEV_UART_RING_SIZE);
      rx := new Ring(KDEV_UART_RING_SIZE);
      this.fifoSize := fifoSize;
      txFifo, rxFifo := [], [];
      accepted, sent, wire, arrived, delivered := [], [], [], [], [];
    }

    /** The hardware may move any number of bytes between two register accesses. */
    method HardwareMoves()
      requires Valid()
      modifies this`txFifo, this`rxFifo, this`wire, this`arrived
      ensures Valid() && Reaches(old(Abs()), Abs(), Sized()) && |txFifo| <= fifoSize
    {
      ghost var before := Abs();
      ReachesSelf(before, Sized());
      var drained: nat, incoming: seq<Byte> := *, *;
      while drained > 0 && |txFifo| > 0
        invariant tx.Valid() && rx.Valid() && Reaches(before, Abs(), Sized())
        invariant |txFifo| <= old(|txFifo|) && rxFifo == old(rxFifo)
        decreases drained
      {
        ghost var here := Abs();
        wire := wire + [txFifo[0]];
        txFifo := txFifo[1..];
        assert Drain(here, Abs());
        ReachesMove(before, here, Abs(), Sized());
        drained := drained - 1;
      }
      while |incoming| > 0 && |rxFifo| < fifoSize
        invariant tx.Valid() && rx.Valid() && Reaches(before, Abs(), Sized())
        invariant |txFifo| <= old(|txFifo|) && old(rxFifo) <= rxFifo
        decreases |incoming|
      {
        ghost var here := Abs();
        rxFifo := rxFifo + [incoming[0]];
        arrived := arrived + [incoming[0]];
        assert Arrive(here, Abs(), Sized(), incoming[0]);
        ReachesMove(before, here, Abs(), Sized());
        incoming := incoming[1..];
      }
      ReachableStreams(before, Abs(), Sized());
    }

    /** Writing DR; the driver does so only when FR.TXFF was clear. */
    method WriteData(c: Byte)
      requires |txFifo| < fifoSize
      modifies this`txFifo, this`sent
      ensures txFifo == old(txFifo) + [c] && sent == old(sent) + [c]
    {
      txFifo := txFifo + [c];
      sent := sent + [c];
    }

    /** Reading DR; the driver does so only when FR.RXFE was clear. */
    method ReadData() returns (c: Byte)
      requires |rxFifo| > 0
      modifies this`rxFifo
      ensures c == old(rxFifo)[0] && rxFifo == old(rxFifo)[1..]
    {
      c := rxFifo[0];
      rxFifo := rxFifo[1..];
    }

    /** dev_uart_sync_write: 0 when the ring is empty, -1 when the hardware FIFO is full. */
    method SyncWrite() returns (status: int)
      requires Valid()
      modifies this`txFifo, this`rxFifo, this`wire, this`arrived, this`sent, tx
      ensures Valid() && Reaches(old(Abs()), Abs(), Sized())
      ensures (status == 0 && tx.Contents() == [] && |txFifo| < fifoSize) || (status == -1 && |txFifo| == fifoSize)
    {
      hide Reaches, Streams;
      ghost var before := Abs();
      ReachesSelf(before, Sized());
      while true
        invariant Separate() && tx.Valid() && rx.Valid() && Streams(Abs(), Sized())
        invariant tx.buffer.Length == rx.buffer.Length && Reaches(before, Abs(), Sized())
        decreases tx.size
      {
        ghost var here := Abs();
        HardwareMoves();
        ReachesThen(before, here, Abs(), Sized());
        if |txFifo| == fifoSize {
          return -1;
        }
        ghost var ready := Abs();
        var res := tx.Read();
        if res < 0 {
          return 0;
        }
        WriteData(res);
        assert Send(ready, Abs(), Sized());
        OneMove(before, ready, Abs(), Sized());
      }
    }

    /** dev_uart_sync_read: 0 when the hardware FIFO was seen empty, -1 when the ring is full. */
    method SyncRead() returns (status: int)
      requires Valid()
      modifies this`txFifo, this`rxFifo, this`wire, this`arrived, rx, rx.buffer
      ensures Valid() && Reaches(old(Abs()), Abs(), Sized())
      ensures tx.Contents() == old(tx.Contents()) && sent == old(sent)
      ensures (status == 0 && rxFifo == []) || (status == -1 && rxFifo != [] && |rx.Contents()| == rx.buffer.Length)
    {
      hide Reaches, Streams;
      ghost var before := Abs();
      ReachesSelf(before, Sized());
      while true
        invariant Separate() && tx.Valid() && rx.Valid() && Streams(Abs(), Sized())
        invariant tx.buffer.Length == rx.buffer.Length && Reaches(before, Abs(), Sized())
        invariant tx.Contents() == old(tx.Contents())
        decreases rx.buffer.Length - rx.size
      {
        ghost var here := Abs();
        HardwareMoves();
        ReachesThen(before, here, Abs(), Sized());
        if |rxFifo| == 0 {
          return 0;
        }
        var available := rx.Available();
        if available == 0 {
          return -1;
        }
        ghost var ready := Abs();
        var c := ReadData();
        var res := rx.Write(c);
        assert Fetch(ready, Abs(), Sized());
        OneMove(before, ready, Abs(), Sized());
      }
    }

    /** The queueing half of one round of dev_uart_kdev_write. */
    method Queue(c: Byte) returns (status: int)
      requires Valid()
      modifies this`accepted, tx, tx.buffer
      ensures Valid() && Reaches(old(Abs()), Abs(), Sized())
      ensures status == if |old(tx.Contents())| == tx.buffer.Length then -1 else 0
      ensures accepted == if status < 0 then old(accepted) else old(accepted) + [c]
      ensures status < 0 ==> tx.Contents() == old(tx.Contents())
    {
      hide Reaches, Streams;
      ghost var before := Abs();
      ReachesSelf(before, Sized());
      status := tx.Write(c);
      if status == 0 {
        accepted := accepted + [c];
        assert Accept(before, Abs(), Sized(), c);
        OneMove(before, before, Abs(), Sized());
      } else {
        assert Abs() == before;
      }
    }

    /** dev_uart_kdev_write: the number of bytes of src that were accepted; it stops early only when the
        ring is full, and leaves accepted bytes unsent only when the hardware FIFO is full. */
    method KdevWrite(src: seq<Byte>) returns (idx: nat)
      requires Valid()
      modifies this`txFifo, this`rxFifo, this`wire, this`arrived, this`sent, this`accepted, tx, tx.buffer
      ensures Valid() && Reaches(old(Abs()), Abs(), Sized())
      ensures idx <= |src| && accepted == old(accepted) + src[..idx]
      ensures idx < |src| ==> |tx.Contents()| == tx.buffer.Length
      ensures idx > 0 && sent != accepted ==> |txFifo| == fifoSize
      ensures src == [] || |old(tx.Contents())| == tx.buffer.Length ==> idx == 0 && Abs() == old(Abs())
    {
      hide Reaches, Streams;
      ghost var before := Abs();
      ReachesSelf(before, Sized());
      idx := 0;
      while idx < |src|
        invariant Valid() && Reaches(before, Abs(), Sized())
        invariant idx <= |src| && accepted == old(accepted) + src[..idx]
        invariant idx > 0 ==> tx.Contents() == [] || |txFifo| == fifoSize
        invariant if idx == 0 then Abs() == before else |before.tx| < tx.buffer.Length
      {
        ghost var here := Abs();
        var status := Queue(src[idx]);
        ReachesThen(before, here, Abs(), Sized());
        if status < 0 {
          break;
        }
        assert src[..idx + 1] == src[..idx] + [src[idx]];
        ghost var queued := Abs();
        status := SyncWrite();
        ReachesThen(before, queued, Abs(), Sized());
        idx := idx + 1;
      }
      EmptyRings(Abs(), Sized());
    }

    /** One round of dev_uart_kdev_read: sync, then take a byte from the ring; -1 when there is none. */
    method ReadNext() returns (res: int)
      requires Valid()
      modifies this`txFifo, this`rxFifo, this`wire, this`arrived, this`delivered, rx, rx.buffer
      ensures Valid() && Reaches(old(Abs()), Abs(), Sized())
      ensures res == -1 || 0 <= res < 256
      ensures delivered == if res < 0 then old(delivered) else old(delivered) + [res]
      ensures res < 0 ==> delivered == arrived && rxFifo == []
      ensures res >= 0 ==> rxFifo == [] || |rx.Contents()| + 1 == rx.buffer.Length
    {
      hide Reaches, Streams;
      var status := SyncRead();
      ghost var synced := Abs();
      res := rx.Read();
      if res < 0 {
        EmptyRings(Abs(), Sized());
        return;
      }
      delivered := delivered + [res];
      assert Deliver(synced, Abs());
      OneMove(old(Abs()), synced, Abs(), Sized());
    }

    /** dev_uart_kdev_read: the number of bytes that were stored in dst; it stops early only when
        every byte that arrived was delivered. */
    method KdevRead(dst: array<Byte>, n: nat) returns (idx: nat)
      requires Valid() && n <= dst.Length && dst != rx.buffer && dst != tx.buffer
      modifies this`txFifo, this`rxFifo, this`wire, this`arrived, this`delivered, rx, rx.buffer, dst
      ensures Valid() && Reaches(old(Abs()), Abs(), Sized())
      ensures idx <= n && delivered == old(delivered) + dst[..idx] && dst[idx..] == old(dst[idx..])
      ensures idx < n ==> delivered == arrived
      ensures n == 0 ==> Abs() == old(Abs())
      ensures n > 0 ==> rxFifo == [] || |rx.Contents()| + 1 == rx.buffer.Length
    {
      hide Reaches, Streams;
      ghost var before := Abs();
      ReachesSelf(before, Sized());
      idx := 0;
      while idx < n
        invariant idx <= n && delivered == old(delivered) + dst[..idx] && dst[idx..] == old(dst[idx..])
        invariant Valid() && Reaches(before, Abs(), Sized())
        invariant if idx == 0 then Abs() == before else rxFifo == [] || |rx.Contents()| + 1 == rx.buffer.Length
      {
        ghost var here := Abs();
        var res := ReadNext();
        ReachesThen(before, here, Abs(), Sized());
        if res < 0 {
          return;
        }
        dst[idx] := res;
        idx := idx + 1;
      }
    }

    /** dev_uart_kdev_isr with the two bits of the masked interrupt status. synced is the state when the
        transmit side was done: its ring is empty or its hardware FIFO is full. A side whose bit is clear is left
        alone. */
    method KdevIsr(txmis: bool, rxmis: bool) returns (ghost synced: Line)
      requires Valid()
      modifies this`txFifo, this`rxFifo, this`wire, this`arrived, this`sent, tx, rx, rx.buffer
      ensures Valid() && Reaches(old(Abs()), synced, Sized()) && Reaches(synced, Abs(), Sized())
      ensures synced.tx == tx.Contents() && synced.sent == sent
      ensures txmis ==> synced.tx == [] || |synced.txFifo| == fifoSize
      ensures rxmis ==> delivered + rx.Contents() == arrived || |rx.Contents()| == rx.buffer.Length
      ensures !txmis ==> sent == old(sent) && tx.Contents() == old(tx.Contents())
      ensures !rxmis ==> rx.Contents() == old(rx.Contents())
    {
      hide Reaches, Streams;
      ReachesSelf(Abs(), Sized());
      if txmis {
        var status := SyncWrite();
      }
      synced := Abs();
      ReachesSelf(synced, Sized());
      if rxmis {
        var status := SyncRead();
        EmptyRings(Abs(), Sized());
      }
    }
  }
}
