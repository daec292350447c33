/** What `readFixSize` makes of single reads that fail (src/streams/Stream.cpp).  The negative result
    is stored in an unsigned length, which is not below one, so the loop goes on: one byte further
    back, and with one byte more to read. */
module StreamFaults {
  import opened Bytes
  import opened Codec

  /** The result of a single read: some bytes, the end of the stream, or minus one. */
  datatype Single = Moved(k: nat) | Ended | Failed

  /** `Outside`: a byte is about to be stored before the buffer.  `Waiting`: no result yet. */
  datatype Outcome = Full(buf: bytes, taken: nat) | Cut(taken: nat) | Outside(taken: nat) | Waiting

  /** How much a single read delivers: not more than was asked for, or than there is. */
  function Amount(k: nat, left: nat, input: bytes): (m: nat)
    ensures m <= left && m <= |input|
  {
    if k <= left && k <= |input| then k else if left <= |input| then left else |input|
  }

  /** The loop, with the offset as the signed number it stands for. */
  function Reading(rs: seq<Single>, input: bytes, n: nat, offset: int, buf: bytes, taken: nat): Outcome
    requires |buf| == n && offset <= n
    decreases |rs|
  {
    if offset == n then Full(buf, taken)
    else if rs == [] then Waiting
    else
      match rs[0]
      case Failed => Reading(rs[1..], input, n, offset - 1, buf, taken)
      case Ended => Cut(taken)
      case Moved(k) =>
        var m := Amount(k, n - offset, input);
        if m == 0 then Cut(taken)
        else if offset < 0 then Outside(taken)
        else Reading(rs[1..], input[m..], n, offset + m, Splice(buf, offset, input[..m]), taken + m)
  }

  /** The failures among the results that the loop has used. */
  function Failures(rs: seq<Single>, input: bytes, n: nat, offset: int): nat
    requires offset <= n
    decreases |rs|
  {
    if offset == n || rs == [] then 0
    else
      match rs[0]
      case Failed => 1 + Failures(rs[1..], input, n, offset - 1)
      case Ended => 0
      case Moved(k) =>
        var m := Amount(k, n - offset, input);
        if m == 0 || offset < 0 then 0 else Failures(rs[1..], input[m..], n, offset + m)
  }

  /** Each failure costs one byte of the stream on top of those asked for. */
  lemma {:induction false} ReadingTakes(rs: seq<Single>, input: bytes, n: nat, offset: int, buf: bytes, taken: nat)
    requires |buf| == n && offset <= n
    ensures var r := Reading(rs, input, n, offset, buf, taken);
      r.Full? ==> r.taken - taken == n - offset + Failures(rs, input, n, offset)
    decreases |rs|
  {
    if offset < n && rs != [] {
      match rs[0]
      case Failed => ReadingTakes(rs[1..], input, n, offset - 1, buf, taken);
      case Ended =>
      case Moved(k) =>
        var m := Amount(k, n - offset, input);
        if m > 0 && offset >= 0 {
          ReadingTakes(rs[1..], input[m..], n, offset + m, Splice(buf, offset, input[..m]), taken + m);
        }
    }
  }

  lemma {:induction false} SpliceKeepsDone(buf: bytes, whole: bytes, offset: nat, m: nat)
    requires offset + m <= |buf| && offset + m <= |whole| && buf[..offset] == whole[..offset]
    ensures Splice(buf, offset, whole[offset..][..m])[..offset + m] == whole[..offset + m]
  {
    assert whole[offset..][..m] == whole[offset..offset + m];
  }

  /** Without a failure the buffer holds the next bytes of the stream. */
  lemma {:induction false} ReadingFills(rs: seq<Single>, whole: bytes, n: nat, offset: nat, buf: bytes, taken: nat)
    requires |buf| == n && offset <= n && offset <= |whole| && buf[..offset] == whole[..offset]
    requires Failures(rs, whole[offset..], n, offset) == 0
    ensures var r := Reading(rs, whole[offset..], n, offset, buf, taken);
      && !r.Outside?
      && (r.Full? ==> n <= |whole| && r.buf == whole[..n])
    decreases |rs|
  {
    if offset == n {
      assert buf[..n] == buf;
    } else if rs != [] && rs[0].Moved? {
      var m := Amount(rs[0].k, n - offset, whole[offset..]);
      if m > 0 {
        SpliceKeepsDone(buf, whole, offset, m);
        assert whole[offset..][m..] == whole[offset + m..];
        ReadingFills(rs[1..], whole, n, offset + m, Splice(buf, offset, whole[offset..][..m]), taken + m);
      }
    }
  }

  /** For any results of the single reads: `readFixSize` that returns its length has taken exactly
      that many bytes from the stream if and only if no read it has used failed, and then they are
      the next bytes; each failure takes one byte more.  Without a failure nothing is ever stored
      outside the buffer. */
  lemma {:induction false} FixedReadIff(rs: seq<Single>, input: bytes, n: nat, buf: bytes)
    requires |buf| == n
    ensures var r, f := Reading(rs, input, n, 0, buf, 0), Failures(rs, input, n, 0);
      && (r.Full? ==> r.taken == n + f)
      && (r.Full? && f == 0 ==> n <= |input| && r.buf == input[..n])
      && (r.Outside? ==> f > 0)
  {
    ReadingTakes(rs, input, n, 0, buf, 0);
    assert input[0..] == input;
    if Failures(rs, input, n, 0) == 0 {
      ReadingFills(rs, input, n, 0, buf, 0);
    }
  }

  /** A failure after the first byte: that byte is lost, although the call returns its length. */
  lemma {:induction false} ByteIsLost(x: byte, y: byte, z: byte)
    ensures Reading([Moved(1), Failed, Moved(2)], [x, y, z], 2, 0, [0, 0], 0) == Full([y, z], 3)
  {
    var rs: seq<Single> := [Moved(1), Failed, Moved(2)];
    assert rs[1..] == [Failed, Moved(2)] && rs[1..][1..] == [Moved(2)] && rs[1..][1..][1..] == [];
    assert [x, y, z][1..] == [y, z] && [x, y, z][..1] == [x] && [y, z][..2] == [y, z] && [y, z][2..] == [];
    assert Splice([0, 0], 0, [x]) == [x, 0] && Splice([x, 0], 0, [y, z]) == [y, z];
    assert Reading([], [], 2, 2, [y, z], 3) == Full([y, z], 3);
    assert Reading([Moved(2)], [y, z], 2, 0, [x, 0], 1) == Full([y, z], 3);
    assert Reading([Failed, Moved(2)], [y, z], 2, 1, [x, 0], 1) == Full([y, z], 3);
  }

  /** A failure at the start: the next byte is stored before the buffer. */
  lemma {:induction false} StoredOutside(x: byte)
    ensures Reading([Failed, Moved(1)], [x], 1, 0, [0], 0) == Outside(0)
  {
    var rs: seq<Single> := [Failed, Moved(1)];
    assert rs[1..] == [Moved(1)];
    assert Reading([Moved(1)], [x], 1, -1, [0], 0) == Outside(0);
  }

  /** `readFixSize` in unsigned 64-bit arithmetic, as far as it stays within its buffer. */
  method ReadFixSize(rs: seq<Single>, input: bytes, n: nat, buffer: bytes) returns (outcome: Outcome)
    requires |buffer| == n && n + |rs| < TWO_63
    ensures outcome == Reading(rs, input, n, 0, buffer, 0)
  {
    var offset, left, i, taken, rest, buf := 0, n, 0, 0, input, buffer;
    ghost var signed: int := 0;
    assert rs[0..] == rs;
    while left > 0 && i < |rs|
      invariant 0 <= i <= |rs| && |buf| == n && taken >= 0 && -i <= signed <= n
      invariant offset == (if signed < 0 then signed + TWO_64 else signed) && left == n - signed
      invariant Reading(rs[i..], rest, n, signed, buf, taken) == Reading(rs, input, n, 0, buffer, 0)
      decreases |rs| - i
    {
      var len := 0;
      match rs[i] {
        case Failed => len := TWO_64 - 1;
        case Ended =>
        case Moved(k) =>
          len := Amount(k, left, rest);
          if len > 0 && offset + len > n {
            return Outside(taken);
          }
          if len > 0 {
            buf := Splice(buf, offset, rest[..len]);
            rest, taken := rest[len..], taken + len;
          }
      }
      if len == 0 {
        return Cut(taken);
      }
      assert rs[i..][1..] == rs[i + 1..];
      offset, left, i := (offset + len) % TWO_64, (left + TWO_64 - len) % TWO_64, i + 1;
      signed := n - left;
    }
    return if left == 0 then Full(buf, taken) else Waiting;
  }
}
