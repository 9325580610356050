/** The sliding byte buffer of mtcp/util/ring_buffer.c and its framing. */
module RingBuffer {
  import opened Bytes

  /** MAX_REP_LEN */
  const MAX_REP_LEN: nat := 10 * 1024

  /** What a move is asked for: a length that is not positive means everything. */
  function Wanted(dataSize: nat, len: int): (n: nat)
    ensures n <= dataSize && (len > 0 ==> n <= len)
    ensures n < dataSize ==> n == len > 0
  {
    if len > 0 then Min(dataSize, len) else dataSize
  }

  class Buffer {
    const head: array<byte>
    var data: nat
    var dataSize: nat
    var cumSize: nat
    /** Everything ever taken out. */
    ghost var removed: seq<byte>

    ghost predicate Valid()
      reads this
    {
      && head.Length > 0
      && data + dataSize <= head.Length
      && data < head.Length
      && cumSize == |removed| + dataSize
    }

    /** The bytes waiting in the buffer, oldest first. */
    ghost function Contents(): (s: seq<byte>)
      reads this, head
      requires Valid()
      ensures |s| == dataSize
    {
      head[data..data + dataSize]
    }

    /** Everything ever added. */
    ghost function History(): (s: seq<byte>)
      reads this, head
      requires Valid()
    {
      removed + Contents()
    }

    lemma Front(n: nat)
      requires Valid() && n <= dataSize
      ensures head[data..data + n] == Contents()[..n]
    {
    }

    /** InitBuffer */
    constructor (size: nat)
      requires size > 0
      ensures Valid() && head.Length == size && fresh(head)
      ensures Contents() == [] && removed == [] && cumSize == 0
    {
      head := new byte[size];
      data, dataSize, cumSize, removed := 0, 0, 0, [];
    }

    /** GetRemainBufferSize: moves the data to the front when more than half the buffer lies before it. */
    method GetRemainBufferSize() returns (remain: nat)
      requires Valid()
      modifies this`data, head
      ensures Valid() && Contents() == old(Contents())
      ensures data == (if old(data) > head.Length / 2 then 0 else old(data)) <= head.Length / 2
      ensures remain == head.Length - data - dataSize
    {
      assert data <= head.Length - 1;
      if data > head.Length / 2 {
        ghost var was := Contents();
        forall k | 0 <= k < dataSize {
          head[k] := head[data + k];
        }
        data := 0;
        assert Contents() == was;
        return head.Length - dataSize;
      }
      return head.Length - dataSize - data;
    }

    /** RemoveDataFromBuffer: an emptied buffer starts again at the front. */
    method RemoveData(size: int) returns (r: int)
      requires Valid()
      modifies this`data, this`dataSize, this`removed
      ensures Valid() && cumSize == old(cumSize) && History() == old(History())
      ensures if 0 <= size <= old(dataSize)
              then
                && r == size && Contents() == old(Contents())[size..]
                && data == (if dataSize == 0 then 0 else old(data) + size)
                && removed == old(removed) + old(Contents())[..size]
              else r == -1 && data == old(data) && dataSize == old(dataSize) && removed == old(removed)
    {
      if size < 0 {
        return -1;
      }
      if size > dataSize {
        return -1;
      }
      ghost var was := Contents();
      assert head[data..data + size] == was[..size];
      assert removed + was == removed + was[..size] + was[size..];
      removed := removed + head[data..data + size];
      dataSize := dataSize - size;
      if dataSize == 0 {
        data := 0;
      } else {
        data := data + size;
      }
      return size;
    }

    /**
     * Writing at GetInputPoint and then AddDataLen. The assertion in AddDataLen compares with the whole
     * buffer only; what keeps the bytes inside it is that the caller asked GetRemainBufferSize.
     */
    method Append(bytes: seq<byte>) returns (size: nat)
      requires Valid() && data + dataSize + |bytes| <= head.Length
      modifies this`dataSize, this`cumSize, head
      ensures Valid() && data == old(data)
      ensures Contents() == old(Contents()) + bytes && removed == old(removed)
      ensures History() == old(History()) + bytes
      ensures size == dataSize == old(dataSize) + |bytes| && cumSize == old(cumSize) + |bytes|
    {
      ghost var was := Contents();
      forall k | 0 <= k < |bytes| {
        head[data + dataSize + k] := bytes[k];
      }
      dataSize := dataSize + |bytes|;
      cumSize := cumSize + |bytes|;
      assert Contents() == was + bytes;
      assert removed + (was + bytes) == removed + was + bytes;
      return dataSize;
    }
  }

  /** Two buffers, or one buffer twice. */
  predicate Apart(dest: Buffer, src: Buffer) {
    dest == src || dest.head != src.head
  }

  /**
   * CopyData: copies as much as is there, as fits, and as was asked for. It stops short of that only when the
   * destination is full to its end, with no more than half of it unused before the data.
   */
  method CopyData(dest: Buffer, src: Buffer, len: nat) returns (copied: nat)
    requires dest.Valid() && src.Valid() && Apart(dest, src)
    modifies dest, dest.head
    ensures dest.Valid() && src.Valid()
    ensures dest.data == (if old(dest.data) > dest.head.Length / 2 then 0 else old(dest.data))
    ensures copied <= Min(len, old(src.dataSize))
    ensures copied < Min(len, old(src.dataSize)) ==>
              dest.data <= dest.head.Length / 2 && dest.data + dest.dataSize == dest.head.Length
    ensures dest.Contents() == old(dest.Contents()) + old(src.Contents())[..copied]
    ensures dest.removed == old(dest.removed)
    ensures dest != src ==> src.Contents() == old(src.Contents()) && src.removed == old(src.removed)
  {
    hide Buffer.Contents, Buffer.History;
    var toCopy := dest.GetRemainBufferSize();
    if toCopy <= 0 {
      return 0;
    }
    toCopy := Min(toCopy, len);
    toCopy := Min(src.dataSize, toCopy);
    assert src.Contents() == old(src.Contents());
    src.Front(toCopy);
    var bytes := src.head[src.data..src.data + toCopy];
    var n := dest.Append(bytes);
    return toCopy;
  }

  /**
   * MoveData: the caller must know that the destination has room. A buffer moved onto itself has its
   * front brought to the back.
   */
  method MoveData(dest: Buffer, src: Buffer, len: int) returns (moved: nat)
    requires dest.Valid() && src.Valid() && Apart(dest, src)
    requires dest.data + dest.dataSize + Wanted(src.dataSize, len) <= dest.head.Length
    modifies dest, dest.head, src
    ensures dest.Valid() && src.Valid() && moved == Wanted(old(src.dataSize), len)
    ensures src.removed == old(src.removed) + old(src.Contents())[..moved]
    ensures dest.History() == old(dest.History()) + old(src.Contents())[..moved]
    ensures dest != src ==>
              && dest.Contents() == old(dest.Contents()) + old(src.Contents())[..moved]
              && dest.removed == old(dest.removed) && dest.data == old(dest.data)
              && src.Contents() == old(src.Contents())[moved..] && src.History() == old(src.History())
    ensures dest == src ==> dest.Contents() == old(src.Contents())[moved..] + old(src.Contents())[..moved]
  {
    hide Buffer.Contents, Buffer.History;
    var toMove := src.dataSize;
    if len > 0 {
      toMove := Min(toMove, len);
    }
    toMove := Min(src.dataSize, toMove);
    ghost var was, front := src.Contents(), src.Contents()[..toMove];
    if toMove <= 0 {
      Nothing(was, src.removed, dest.History());
      return 0;
    }
    src.Front(toMove);
    var bytes := src.head[src.data..src.data + toMove];
    var n := dest.Append(bytes);
    assert dest != src ==> src.Contents() == was && src.History() == old(src.History());
    assert (was + front)[toMove..] == was[toMove..] + front && (was + front)[..toMove] == front;
    var ret := src.RemoveData(toMove);
    return ret;
  }

  lemma Nothing(s: seq<byte>, t: seq<byte>, u: seq<byte>)
    ensures s[..0] == [] && s[0..] == s && s + s[..0] == s && s[0..] + s[..0] == s && t + s[..0] == t && u + s[..0] == u
  {
  }

  // ---- Framing ----

  /** Every header is `size` bytes long; rephdr holds the payload length. */
  ghost predicate HeadersOf(header: nat -> seq<byte>, size: nat) {
    size > 0 && forall n :: |header(n)| == size
  }

  /** The frames of the payloads, one after the other. */
  function Framed(payloads: seq<seq<byte>>, header: nat -> seq<byte>): seq<byte> {
    if payloads == [] then []
    else header(|payloads[0]|) + payloads[0] + Framed(payloads[1..], header)
  }

  function Flat(payloads: seq<seq<byte>>): seq<byte> {
    if payloads == [] then [] else payloads[0] + Flat(payloads[1..])
  }

  lemma {:induction false} FramedMore(payloads: seq<seq<byte>>, p: seq<byte>, header: nat -> seq<byte>)
    ensures Framed(payloads + [p], header) == Framed(payloads, header) + (header(|p|) + p)
    ensures Flat(payloads + [p]) == Flat(payloads) + p
  {
    if payloads == [] {
      assert payloads + [p] == [p] && [p][1..] == [];
      assert p + [] == p && header(|p|) + p + [] == header(|p|) + p;
    } else {
      FramedMore(payloads[1..], p, header);
      assert (payloads + [p])[1..] == payloads[1..] + [p];
      var h := header(|payloads[0]|) + payloads[0];
      Associate(h, Framed(payloads[1..], header), header(|p|) + p);
    }
  }

  /** Different payload lengths have different headers. */
  ghost predicate HeadersDiffer(header: nat -> seq<byte>) {
    forall m, n :: 0 <= m <= MAX_REP_LEN && 0 <= n <= MAX_REP_LEN && header(m) == header(n) ==> m == n
  }

  /** Two bytes are enough for that. */
  lemma HeadersExist()
    ensures exists header: nat -> seq<byte> :: HeadersOf(header, 2) && HeadersDiffer(header)
  {
    var header: nat -> seq<byte> := n => [n / 256 % 256, n % 256];
    forall m: nat, n: nat | m <= MAX_REP_LEN && n <= MAX_REP_LEN && header(m) == header(n) ensures m == n {
      assert header(m)[0] == header(n)[0] && header(m)[1] == header(n)[1];
    }
    assert HeadersOf(header, 2) && HeadersDiffer(header);
  }

  /** The frames of one call determine its payloads, and with them the bytes that were moved. */
  lemma {:induction false} FramesDetermined(ps: seq<seq<byte>>, qs: seq<seq<byte>>,
                                            header: nat -> seq<byte>, size: nat)
    requires HeadersOf(header, size) && HeadersDiffer(header) && WellCut(ps) && WellCut(qs)
    requires Framed(ps, header) == Framed(qs, header)
    ensures ps == qs && Flat(ps) == Flat(qs)
    decreases |ps|
  {
    FramedSize(ps, header, size);
    FramedSize(qs, header, size);
    if ps != [] && qs != [] {
      var f := Framed(ps, header);
      var p, q := ps[0], qs[0];
      assert 1 <= |ps[0]| <= MAX_REP_LEN && 1 <= |qs[0]| <= MAX_REP_LEN;
      assert f[..size] == header(|p|) == header(|q|);
      assert f[size..size + |p|] == p && f[size..size + |q|] == q;
      assert f[size + |p|..] == Framed(ps[1..], header) == Framed(qs[1..], header);
      FramesDetermined(ps[1..], qs[1..], header, size);
      assert ps == [p] + ps[1..] && qs == [q] + qs[1..];
    }
  }

  lemma FramedSize(ps: seq<seq<byte>>, header: nat -> seq<byte>, size: nat)
    requires HeadersOf(header, size)
    ensures ps == [] <==> Framed(ps, header) == []
  {
    assert ps != [] ==> |header(|ps[0]|)| == size;
  }

  /** The payloads of one call: none empty, none too long, and all but the last as long as can be. */
  predicate WellCut(payloads: seq<seq<byte>>) {
    forall i :: 0 <= i < |payloads| ==>
      1 <= |payloads[i]| <= MAX_REP_LEN && (i < |payloads| - 1 ==> |payloads[i]| == MAX_REP_LEN)
  }

  /**
   * MoveToREPData: the payloads make up the prefix taken from the source; it stops short only when what is
   * left of the destination does not exceed a header.
   */
  method MoveToRep(dest: Buffer, src: Buffer, len: int, header: nat -> seq<byte>, size: nat)
    returns (sum: nat, ghost payloads: seq<seq<byte>>)
    requires dest.Valid() && src.Valid() && dest != src && dest.head != src.head
    requires HeadersOf(header, size)
    modifies dest, dest.head, src
    ensures dest.Valid() && src.Valid() && WellCut(payloads)
    ensures dest.Contents() == old(dest.Contents()) + Framed(payloads, header)
    ensures sum <= Wanted(old(src.dataSize), len) && Flat(payloads) == old(src.Contents())[..sum]
    ensures src.Contents() == old(src.Contents())[sum..]
    ensures dest.removed == old(dest.removed) && src.removed == old(src.removed) + old(src.Contents())[..sum]
    ensures dest.data == (if old(dest.data) > dest.head.Length / 2 then 0 else old(dest.data))
    ensures sum < Wanted(old(src.dataSize), len) ==> dest.head.Length - dest.data - dest.dataSize <= size
  {
    hide Framed, Flat, WellCut, Buffer.Contents;
    ghost var d0, s0, r0 := dest.Contents(), src.Contents(), src.removed;
    sum, payloads := 0, [];
    NoFrames(header);
    var dataSize := src.dataSize;
    var remain := dest.GetRemainBufferSize();
    if len > 0 {
      dataSize := Min(dataSize, len);
    }
    while dataSize > 0 && remain > size
      invariant dest.Valid() && src.Valid() && WellCut(payloads)
      invariant remain == dest.head.Length - dest.data - dest.dataSize
      invariant dest.data == (if old(dest.data) > dest.head.Length / 2 then 0 else old(dest.data))
      invariant 0 <= dataSize && sum + dataSize == Wanted(old(src.dataSize), len)
      invariant sum <= |s0| && dest.Contents() == d0 + Framed(payloads, header)
      invariant Flat(payloads) == s0[..sum] && src.Contents() == s0[sum..]
      invariant dest.removed == old(dest.removed) && src.removed == r0 + s0[..sum]
      invariant payloads == [] || |payloads[|payloads| - 1]| == MAX_REP_LEN || dataSize == 0 || remain == 0
      decreases dataSize
    {
      var toMove := Min(dataSize, remain - size);
      toMove := Min(toMove, MAX_REP_LEN);
      remain := remain - size;
      remain := remain - toMove;
      dataSize := dataSize - toMove;
      ghost var payload := MoveFrame(dest, src, header, size, toMove);
      FramedMore(payloads, payload, header);
      WellCutMore(payloads, payload);
      Associate(d0, Framed(payloads, header), header(|payload|) + payload);
      CutFurther(s0, sum, toMove);
      Associate(r0, s0[..sum], payload);
      payloads := payloads + [payload];
      sum := sum + toMove;
    }
  }

  lemma CutFurther(s: seq<byte>, sum: nat, n: nat)
    requires sum + n <= |s|
    ensures s[..sum + n] == s[..sum] + s[sum..][..n] && s[sum..][n..] == s[sum + n..]
  {
  }

  lemma WellCutMore(payloads: seq<seq<byte>>, p: seq<byte>)
    requires WellCut(payloads) && (payloads == [] || |payloads[|payloads| - 1]| == MAX_REP_LEN)
    requires 1 <= |p| <= MAX_REP_LEN
    ensures WellCut(payloads + [p])
  {
  }

  lemma NoFrames(header: nat -> seq<byte>)
    ensures Framed([], header) == [] && Flat([]) == [] && WellCut([])
  {
  }

  /** One frame: its header, then its payload taken from the source. */
  method MoveFrame(dest: Buffer, src: Buffer, header: nat -> seq<byte>, size: nat, toMove: nat)
    returns (ghost payload: seq<byte>)
    requires dest.Valid() && src.Valid() && dest != src && dest.head != src.head
    requires HeadersOf(header, size) && toMove <= src.dataSize
    requires dest.data + dest.dataSize + size + toMove <= dest.head.Length
    modifies dest, dest.head, src
    ensures dest.Valid() && src.Valid() && dest.data == old(dest.data)
    ensures payload == old(src.Contents())[..toMove] && src.Contents() == old(src.Contents())[toMove..]
    ensures dest.Contents() == old(dest.Contents()) + (header(toMove) + payload)
    ensures dest.dataSize == old(dest.dataSize) + size + toMove && src.dataSize == old(src.dataSize) - toMove
    ensures dest.removed == old(dest.removed) && src.removed == old(src.removed) + payload
  {
    payload := src.Contents()[..toMove];
    var n := dest.Append(header(toMove));
    assert src.Contents() == old(src.Contents());
    var bytes := src.head[src.data..src.data + toMove];
    assert bytes == src.Contents()[..toMove];
    n := dest.Append(bytes);
    assert src.Contents() == old(src.Contents());
    var ret := src.RemoveData(toMove);
    assert dest.Contents() == old(dest.Contents()) + header(toMove) + payload;
    Associate(old(dest.Contents()), header(toMove), payload);
  }
}
