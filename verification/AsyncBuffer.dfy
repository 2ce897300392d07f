/** The growable buffer of log_system/log_src/AsyncBuffer.hpp. */
module AsyncBuffer {
  import opened Common

  /** The fields of LogConfig that growth depends on. */
  datatype GrowthConfig = GrowthConfig(bufferSize: nat, threshold: nat, linearGrowth: nat)

  function Zeros(n: nat): (z: Bytes)
    ensures |z| == n
  {
    seq(n, _ => 0)
  }

  /** The value of a buffer: the vector and the two positions. `Swap` exchanges whole values. */
  datatype Buf = Buf(data: Bytes, writePos: nat, readPos: nat) {
    predicate Valid() { readPos <= writePos <= |data| }

    /** The bytes written and not yet reset. */
    function Unread(): Bytes
      requires Valid()
    {
      data[readPos..writePos]
    }

    predicate IsEmpty() { writePos == readPos }

    function WriteableSize(): int { |data| - writePos }

    /** The vector's size after `ToBeEnough(len)`: one growth at most, whatever `len` is. */
    function GrownSize(cfg: GrowthConfig, len: nat): nat {
      if len < WriteableSize() then |data|
      else if |data| < cfg.threshold then |data| + |data|
      else cfg.linearGrowth + |data|
    }

    function Grown(cfg: GrowthConfig, len: nat): Buf {
      Buf(data + Zeros(GrownSize(cfg, len) - |data|), writePos, readPos)
    }

    /** Whether a push of `len` bytes stays inside the vector. */
    predicate Fits(cfg: GrowthConfig, len: nat) { writePos + len <= GrownSize(cfg, len) }

    function Pushed(cfg: GrowthConfig, bytes: Bytes): Buf
      requires Valid() && Fits(cfg, |bytes|)
    {
      var g := Grown(cfg, |bytes|).data;
      Buf(g[..writePos] + bytes + g[writePos + |bytes|..], writePos + |bytes|, readPos)
    }

    function Reset(): Buf { Buf(data, 0, 0) }
  }

  function NewBuf(cfg: GrowthConfig): Buf { Buf(Zeros(cfg.bufferSize), 0, 0) }

  class Buffer {
    var buffer: array<Byte>
    var writePos: nat
    var readPos: nat
    const cfg: GrowthConfig

    ghost function View(): Buf
      reads this, buffer
    {
      Buf(buffer[..], writePos, readPos)
    }

    constructor (cfg: GrowthConfig)
      ensures View() == NewBuf(cfg) && this.cfg == cfg && fresh(buffer)
      ensures buffer.Length == cfg.bufferSize && writePos == readPos == 0
    {
      this.cfg := cfg;
      writePos, readPos := 0, 0;
      buffer := new Byte[cfg.bufferSize](_ => 0);
      new;
      assert buffer[..] == Zeros(cfg.bufferSize);
    }

    predicate IsEmpty()
      reads this
    {
      writePos == readPos
    }

    function WriteableSize(): int
      reads this, buffer
    {
      buffer.Length - writePos
    }

    function ReadableSize(): int
      reads this
    {
      writePos - readPos
    }

    /** `Begin()` with `ReadableSize()` bytes after it, as a callback reads them. */
    method Contents() returns (bytes: Bytes)
      requires View().Valid()
      ensures bytes == View().Unread()
    {
      bytes := buffer[readPos..writePos];
    }

    method ToBeEnough(len: nat)
      modifies this
      ensures View() == old(View()).Grown(cfg, len)
      ensures buffer == old(buffer) || fresh(buffer)
      ensures buffer.Length ==
        if len < old(buffer.Length - writePos) then old(buffer.Length)
        else if old(buffer.Length) < cfg.threshold then 2 * old(buffer.Length)
        else old(buffer.Length) + cfg.linearGrowth
      ensures buffer[..old(buffer.Length)] == old(buffer[..])
    {
      if len >= WriteableSize() {
        var size :=
          if buffer.Length < cfg.threshold then buffer.Length + buffer.Length else cfg.linearGrowth + buffer.Length;
        Resize(size);
      } else {
        assert old(View()).Grown(cfg, len).data == buffer[..];
      }
    }

    /** `vector::resize` to a size that is not smaller. */
    method Resize(size: nat)
      requires size >= buffer.Length
      modifies this
      ensures View() == old(Buf(buffer[..] + Zeros(size - buffer.Length), writePos, readPos))
      ensures fresh(buffer)
    {
      var bigger := new Byte[size](_ => 0);
      forall i | 0 <= i < buffer.Length {
        bigger[i] := buffer[i];
      }
      assert bigger[..] == buffer[..] + Zeros(size - buffer.Length);
      buffer := bigger;
    }

    method Push(bytes: Bytes)
      requires View().Valid() && View().Fits(cfg, |bytes|)
      modifies this, buffer
      ensures View() == old(View()).Pushed(cfg, bytes)
      ensures writePos == old(writePos) + |bytes| && readPos == old(readPos) && buffer.Length >= writePos
      ensures buffer[..writePos] == old(buffer[..writePos]) + bytes
      ensures buffer == old(buffer) || fresh(buffer)
    {
      ghost var b := View();
      ToBeEnough(|bytes|);
      assert buffer[..writePos] == b.data[..writePos];
      CopyIn(bytes);
      writePos := writePos + |bytes|;
    }

    /** `std::copy` to the write position. */
    method CopyIn(bytes: Bytes)
      requires writePos + |bytes| <= buffer.Length
      modifies buffer
      ensures buffer[..] == old(buffer[..writePos]) + bytes + old(buffer[writePos + |bytes|..])
    {
      ghost var g := buffer[..];
      forall i | 0 <= i < |bytes| {
        buffer[writePos + i] := bytes[i];
      }
      assert buffer[..] == g[..writePos] + bytes + g[writePos + |bytes|..];
    }

    method Swap(other: Buffer)
      modifies this, other
      ensures buffer == old(other.buffer) && other.buffer == old(buffer)
      ensures View() == old(other.View()) && other.View() == old(View())
    {
      buffer, other.buffer := other.buffer, buffer;
      readPos, other.readPos := other.readPos, readPos;
      writePos, other.writePos := other.writePos, writePos;
    }

    method Reset()
      modifies this
      ensures View() == old(View()).Reset() && buffer == old(buffer)
      ensures writePos == readPos == 0
    {
      writePos := 0;
      readPos := 0;
    }
  }

  // ---- Bounds ----

  /** Pushing keeps the positions in order and the unread bytes, with the new ones after them. */
  lemma PushAppends(cfg: GrowthConfig, b: Buf, bytes: Bytes)
    requires b.Valid() && b.Fits(cfg, |bytes|)
    ensures b.Pushed(cfg, bytes).Valid()
    ensures b.Pushed(cfg, bytes).Unread() == b.Unread() + bytes
    ensures |b.Pushed(cfg, bytes).data| == b.GrownSize(cfg, |bytes|) >= |b.data|
    ensures b.Pushed(cfg, bytes).data[..b.writePos] == b.data[..b.writePos]
  {
    var g := b.Grown(cfg, |bytes|).data;
    assert g[..b.writePos] == b.data[..b.writePos];
    var d := b.Pushed(cfg, bytes).data;
    assert d[..b.writePos] == b.data[..b.writePos];
    assert d[b.readPos..b.writePos + |bytes|] == b.data[b.readPos..b.writePos] + bytes;
  }

  /** A producer that waited for room always pushes in bounds; one that did not, exactly when one growth suffices. */
  lemma PushInBounds(cfg: GrowthConfig, b: Buf, len: nat)
    requires b.Valid()
    ensures len <= b.WriteableSize() ==> b.Fits(cfg, len)
    ensures len >= b.WriteableSize() && |b.data| < cfg.threshold ==>
      (b.Fits(cfg, len) <==> len <= 2 * |b.data| - b.writePos)
    ensures len >= b.WriteableSize() && |b.data| >= cfg.threshold ==>
      (b.Fits(cfg, len) <==> len <= |b.data| - b.writePos + cfg.linearGrowth)
  {
  }

  // ---- Growth over whole histories ----

  /** A vector, its highest write position so far, and the bytes its growths have copied. */
  datatype Tracked = Tracked(buf: Buf, high: nat, moved: nat)

  datatype BufferOp = PushTo(first: bool, bytes: Bytes) | SwapBoth | ResetOne(first: bool)

  function TrackPush(cfg: GrowthConfig, t: Tracked, bytes: Bytes): Tracked
    requires t.buf.Valid() && t.buf.Fits(cfg, |bytes|)
  {
    Tracked(
      t.buf.Pushed(cfg, bytes),
      Max(t.high, t.buf.writePos + |bytes|),
      t.moved + if |bytes| >= t.buf.WriteableSize() then |t.buf.data| else 0)
  }

  /** Two buffers under any in-bounds pushes, swaps and resets; a swap carries each vector's history along. */
  ghost predicate BufferStep(cfg: GrowthConfig, s: (Tracked, Tracked), op: BufferOp, s': (Tracked, Tracked)) {
    match op
    case PushTo(first, bytes) =>
      if first then s.0.buf.Valid() && s.0.buf.Fits(cfg, |bytes|) && s' == (TrackPush(cfg, s.0, bytes), s.1)
      else s.1.buf.Valid() && s.1.buf.Fits(cfg, |bytes|) && s' == (s.0, TrackPush(cfg, s.1, bytes))
    case SwapBoth => s' == (s.1, s.0)
    case ResetOne(first) =>
      if first then s' == (s.0.(buf := s.0.buf.Reset()), s.1) else s' == (s.0, s.1.(buf := s.1.buf.Reset()))
  }

  predicate GrowthBounded(cfg: GrowthConfig, t: Tracked) {
    && t.buf.Valid() && t.buf.writePos <= t.high
    && cfg.bufferSize <= |t.buf.data| <= Max(cfg.bufferSize, Max(2 * t.high, t.high + cfg.linearGrowth))
    && (|t.buf.data| < cfg.threshold ==> t.moved == |t.buf.data| - cfg.bufferSize)
    && (|t.buf.data| < cfg.threshold ==> t.moved <= 2 * t.high)
  }

  lemma PushKeepsBound(cfg: GrowthConfig, t: Tracked, bytes: Bytes)
    requires GrowthBounded(cfg, t) && t.buf.Fits(cfg, |bytes|)
    ensures GrowthBounded(cfg, TrackPush(cfg, t, bytes))
  {
    PushAppends(cfg, t.buf, bytes);
  }

  /**
   * In every run no vector exceeds twice its high-water mark (or that mark plus one linear step), and while
   * it is below the threshold the bytes copied by growing are exactly its growth, at most twice the mark.
   */
  lemma {:induction false} GrowthBoundOverRuns(cfg: GrowthConfig, states: seq<(Tracked, Tracked)>, ops: seq<BufferOp>)
    requires |states| == |ops| + 1
    requires states[0] == (Tracked(NewBuf(cfg), 0, 0), Tracked(NewBuf(cfg), 0, 0))
    requires forall i :: 0 <= i < |ops| ==> BufferStep(cfg, states[i], ops[i], states[i + 1])
    ensures GrowthBounded(cfg, states[|ops|].0) && GrowthBounded(cfg, states[|ops|].1)
  {
    var n := |ops|;
    if n > 0 {
      GrowthBoundOverRuns(cfg, states[..n], ops[..n - 1]);
      var s := states[n - 1];
      assert s == states[..n][n - 1];
      assert BufferStep(cfg, states[n - 1], ops[n - 1], states[n - 1 + 1]);
      match ops[n - 1]
      case PushTo(first, bytes) =>
        PushKeepsBound(cfg, if first then s.0 else s.1, bytes);
      case SwapBoth =>
      case ResetOne(first) =>
    }
  }
}
