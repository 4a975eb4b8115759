/** The sending side of tcp-large-transfer.cc: a buffer written out again and again to a socket that
    may take less than it is offered, or nothing. */
module LargeTransfer {

  newtype Byte = b: int | 0 <= b < 256

  /** What one iteration sees of the socket: the two answers of `GetTxAvailable`, and what `Send`
      returns. A socket takes at most what it is offered. */
  datatype Reply = Reply(available: nat, availableAgain: nat, sent: int)

  /** The initial content of the buffer. */
  function Letter(i: nat): Byte {
    (97 + i % 26) as Byte
  }

  /** Byte `i` of what goes out when a buffer of `size` bytes is written over and over. */
  function Cyclic(size: nat, i: nat): Byte
    requires size > 0
  {
    Letter(i % size)
  }

  function Stream(size: nat, n: nat): seq<Byte>
    requires size > 0
  {
    seq(n, i requires i >= 0 => Cyclic(size, i))
  }

  /** The letters from a to z over and over. */
  function Alphabet(n: nat): seq<Byte> {
    seq(n, i requires i >= 0 => Letter(i))
  }

  /** From a to z and over again. */
  lemma LetterIs(i: nat)
    ensures Letter(i) as int == "abcdefghijklmnopqrstuvwxyz"[i % 26] as int
  {
    AtoZ(i % 26);
  }

  lemma AtoZ(k: nat)
    requires k < 26
    ensures "abcdefghijklmnopqrstuvwxyz"[k] as int == 97 + k
  {
  }

  lemma {:induction false} ModMultiple(r: nat, k: nat)
    ensures (26 * k + r) % 26 == r % 26
    decreases k
  {
    if k > 0 {
      ModMultiple(r, k - 1);
      assert 26 * k + r == 26 * (k - 1) + r + 26;
    }
  }

  /** Going round a buffer of whole alphabets does not change the letter. */
  lemma {:induction false} ModTwice(i: nat, alphabets: nat)
    requires alphabets > 0
    ensures (i % (26 * alphabets)) % 26 == i % 26
    decreases i
  {
    var size := 26 * alphabets;
    if i >= size {
      ModTwice(i - size, alphabets);
      ModLess(i, size);
      ModMultiple(i - size, alphabets);
    } else {
      ModSmall(i, size);
    }
  }

  lemma ModSmall(i: nat, size: nat)
    requires i < size
    ensures i % size == i
  {
  }

  lemma ModLess(i: nat, size: nat)
    requires 0 < size <= i
    ensures i % size == (i - size) % size
  {
    var p, q := i / size, (i - size) / size;
    ModUnique(i, size, q + 1, (i - size) % size);
  }

  /** The stream is the endless alphabet exactly when the buffer holds whole alphabets, or is never
      written to its end. */
  lemma SplicedIff(size: nat, total: nat)
    requires size > 0
    ensures Stream(size, total) == Alphabet(total) <==> size % 26 == 0 || total <= size
  {
    if size % 26 == 0 {
      forall i: nat | i < total ensures Cyclic(size, i) == Letter(i) {
        ModTwice(i, size / 26);
      }
    } else if total > size {
      ModUnique(size, size, 1, 0);
      assert Stream(size, total)[size] == Cyclic(size, size) == Letter(0);
      assert Alphabet(total)[size] == Letter(size);
    } else {
      forall i: nat | i < total ensures Cyclic(size, i) == Letter(i) {
        ModSmall(i, size);
      }
    }
  }

  function Min(a: nat, b: nat): nat {
    if a < b then a else b
  }

  /** A slice of the buffer from where the stream stands continues the stream. */
  lemma SliceContinues(buffer: seq<Byte>, current: nat, offset: nat, n: nat)
    requires |buffer| > 0 && forall k :: 0 <= k < |buffer| ==> buffer[k] == Letter(k)
    requires offset == current % |buffer| && offset + n <= |buffer|
    ensures Stream(|buffer|, current) + buffer[offset..offset + n] == Stream(|buffer|, current + n)
  {
    var slice := buffer[offset..offset + n];
    forall i: nat | i < n ensures slice[i] == Cyclic(|buffer|, current + i) {
      ModAdd(current, i, |buffer|);
      assert buffer[offset + i] == Letter(offset + i);
    }
    hide Cyclic;
    StreamContinues(|buffer|, current, slice);
  }

  lemma StreamContinues(size: nat, current: nat, more: seq<Byte>)
    requires size > 0 && forall i: nat :: i < |more| ==> more[i] == Cyclic(size, current + i)
    ensures Stream(size, current) + more == Stream(size, current + |more|)
  {
    hide Cyclic;
  }

  /** One call of `Send`: what the socket answered, where in the buffer the slice starts, how long it is,
      and how much of it was taken. */
  datatype Slice = Slice(reply: Reply, offset: nat, offer: nat, taken: nat)

  /** The bytes taken in all. */
  function Total(slices: seq<Slice>): nat {
    if slices == [] then 0 else Total(slices[..|slices| - 1]) + slices[|slices| - 1].taken
  }

  lemma TotalSnoc(slices: seq<Slice>, s: Slice)
    ensures Total(slices + [s]) == Total(slices) + s.taken
  {
    assert (slices + [s])[..|slices|] == slices;
  }

  /** What one iteration does when `current` bytes are accepted: the slice it offers is the longest from
      the current place in the buffer that is not beyond the end of the buffer, not more than is left, and
      not more than the socket has room for; the socket takes as much of it as it says. */
  predicate Proper(total: nat, writeSize: nat, current: nat, s: Slice)
    requires writeSize > 0
  {
    && current < total && s.reply.available > 0 && s.offset == current % writeSize
    && s.offset + s.offer <= writeSize && s.offer <= total - current && s.offer <= s.reply.availableAgain
    && (s.offset + s.offer == writeSize || s.offer == total - current || s.offer == s.reply.availableAgain)
    && (s.reply.sent < 0 ==> s.taken == 0)
    && (0 <= s.reply.sent <= s.offer ==> s.taken == s.reply.sent)
    && (s.reply.sent > s.offer ==> s.taken == s.offer)
  }

  /** Every slice is the proper one at the place that the slices before have led to. */
  predicate AllProper(total: nat, writeSize: nat, slices: seq<Slice>)
    requires writeSize > 0
  {
    forall k :: 0 <= k < |slices| ==> Proper(total, writeSize, Total(slices[..k]), slices[k])
  }

  lemma ProperSnoc(total: nat, writeSize: nat, slices: seq<Slice>, s: Slice)
    requires writeSize > 0 && AllProper(total, writeSize, slices) && Proper(total, writeSize, Total(slices), s)
    ensures AllProper(total, writeSize, slices + [s])
  {
    hide Proper, Total;
    var more := slices + [s];
    forall k | 0 <= k < |more| ensures Proper(total, writeSize, Total(more[..k]), more[k]) {
      assert more[..k] == slices[..k];
      assert slices[..|slices|] == slices;
    }
  }

  /** Slices answered by the script. */
  predicate Answered(slices: seq<Slice>, script: seq<Reply>) {
    |slices| <= |script| && forall k :: 0 <= k < |slices| ==> slices[k].reply == script[k]
  }

  lemma AnsweredSnoc(before: seq<Slice>, more: seq<Slice>, s: Slice, script: seq<Reply>)
    requires Answered(more, script) && |more| < |script| && s.reply == script[|more|]
    ensures Answered(more + [s], script) && before + more + [s] == before + (more + [s])
  {
  }

  lemma NoneYet(slices: seq<Slice>, script: seq<Reply>)
    ensures Answered([], script) && slices + [] == slices
  {
  }

  /** A callback that has used up this much of the script can only wait: the socket has no space left. */
  predicate Blocked(script: seq<Reply>, used: nat)
    requires used <= |script|
  {
    used == |script| || script[used].available == 0 || (used > 0 && script[used - 1].sent < 0)
  }

  /** A socket that takes something each time it is asked. */
  predicate Willing(reply: Reply) {
    reply.available > 0 && reply.availableAgain > 0 && reply.sent > 0
  }

  predicate AllWilling(script: seq<Reply>) {
    forall k :: 0 <= k < |script| ==> Willing(script[k])
  }

  lemma IsProper(total: nat, writeSize: nat, current: nat, offset: nat, offer: nat, reply: Reply, taken: nat)
    requires writeSize > 0 && current < total && reply.available > 0 && offset == current % writeSize
    requires offer == Min(Min(writeSize - offset, total - current), reply.availableAgain)
    requires taken == if reply.sent < 0 then 0 else if reply.sent > offer then offer else reply.sent
    ensures Proper(total, writeSize, current, Slice(reply, offset, offer, taken))
    ensures Willing(reply) ==> taken > 0
  {
  }

  class Sender {
    const totalTxBytes: nat
    const writeSize: nat
    const data: array<Byte>
    var currentTxBytes: nat
    var closes: nat
    ghost var accepted: seq<Byte>
    ghost var slices: seq<Slice>

    /** The initialisation loop of `main`. */
    constructor (totalTxBytes: nat, writeSize: nat)
      requires writeSize > 0
      ensures this.totalTxBytes == totalTxBytes && this.writeSize == writeSize && fresh(data)
      ensures Valid() && currentTxBytes == 0 && closes == 0 && slices == []
    {
      this.totalTxBytes, this.writeSize := totalTxBytes, writeSize;
      data := new Byte[writeSize];
      currentTxBytes, closes := 0, 0;
      accepted, slices := [], [];
      new;
      for i := 0 to writeSize
        modifies data
        invariant forall k: nat {:trigger data[k]} :: k < i ==> data[k] == Letter(k)
      {
        var m := 97 + i % 26;
        data[i] := m as Byte;
      }
    }

    ghost predicate Filled()
      reads data
    {
      data.Length == writeSize && forall k: nat :: k < data.Length ==> data[k] == Letter(k)
    }

    /** The bytes accepted so far are the first `currentTxBytes` of the stream, as many as the socket took
        in all, and the connection is only closed when there are no more. */
    ghost predicate Valid()
      reads this, data
    {
      && writeSize > 0 && Filled() && currentTxBytes <= totalTxBytes && accepted == Stream(writeSize, currentTxBytes)
      && AllProper(totalTxBytes, writeSize, slices) && currentTxBytes == Total(slices)
      && (closes > 0 ==> currentTxBytes == totalTxBytes)
    }

    /** The body of the loop; false when the socket refuses. */
    method WriteSlice(reply: Reply) returns (again: bool, ghost s: Slice)
      requires Valid() && currentTxBytes < totalTxBytes && reply.available > 0
      modifies `currentTxBytes, `accepted, `slices
      ensures Valid() && again == (reply.sent >= 0) && s.reply == reply && slices == old(slices) + [s]
      ensures currentTxBytes == old(currentTxBytes) + s.taken && old(accepted) <= accepted
      ensures (!again ==> s.taken == 0) && (Willing(reply) ==> s.taken > 0)
    {
      hide Stream, Total, Proper, AllProper, Willing, Filled;
      var left := totalTxBytes - currentTxBytes;
      var dataOffset := currentTxBytes % writeSize;
      var toWrite := writeSize - dataOffset;
      toWrite := Min(toWrite, left);
      toWrite := Min(toWrite, reply.availableAgain);
      var amountSent := if reply.sent > toWrite then toWrite else reply.sent;
      ghost var amount := if amountSent < 0 then 0 else amountSent;
      s := Slice(reply, dataOffset, toWrite, amount);
      IsProper(totalTxBytes, writeSize, currentTxBytes, dataOffset, toWrite, reply, amount);
      Accept(s);
      again := amountSent >= 0;
      if again {
        currentTxBytes := currentTxBytes + amountSent;
      }
    }

    /** The account of one slice. */
    ghost method Accept(s: Slice)
      requires Valid() && Proper(totalTxBytes, writeSize, currentTxBytes, s)
      modifies `accepted, `slices
      ensures slices == old(slices) + [s] && old(accepted) <= accepted
      ensures accepted == Stream(writeSize, currentTxBytes + s.taken) && currentTxBytes + s.taken <= totalTxBytes
      ensures AllProper(totalTxBytes, writeSize, slices) && currentTxBytes + s.taken == Total(slices)
    {
      hide Stream, Total, AllProper;
      SliceContinues(data[..], currentTxBytes, s.offset, s.taken);
      ProperSnoc(totalTxBytes, writeSize, slices, s);
      TotalSnoc(slices, s);
      accepted := accepted + data[..][s.offset..s.offset + s.taken];
      slices := slices + [s];
    }

    /** One call of the send callback. `script` is what the socket answers; when it is used up the
        socket has no space left. The callback goes on as long as there is something to send and the
        socket takes it, and closes the connection exactly when everything is accepted. */
    method WriteUntilBufferFull(script: seq<Reply>) returns (ghost more: seq<Slice>)
      requires Valid()
      modifies this
      ensures Valid() && slices == old(slices) + more && Answered(more, script) && old(accepted) <= accepted
      ensures forall k :: 0 <= k < |slices| ==> slices[k].offset + slices[k].offer <= writeSize
      ensures currentTxBytes == totalTxBytes || Blocked(script, |more|)
      ensures closes == old(closes) + if currentTxBytes == totalTxBytes then 1 else 0
      ensures AllWilling(script) && old(currentTxBytes) + |script| >= totalTxBytes ==> currentTxBytes == totalTxBytes
    {
      more := [];
      var used := 0;
      var again := true;
      AtMostAll();
      NoneYet(slices, script);
      hide Valid, Total, Answered;
      while again && currentTxBytes < totalTxBytes && used < |script| && script[used].available > 0
        invariant Valid() && used == |more| && slices == old(slices) + more && Answered(more, script)
        invariant old(accepted) <= accepted && closes == old(closes) && currentTxBytes <= totalTxBytes
        invariant again || (used > 0 && script[used - 1].sent < 0 && currentTxBytes < totalTxBytes)
        invariant AllWilling(script) ==> again && currentTxBytes >= old(currentTxBytes) + used
        decreases |script| - used
      {
        ghost var s;
        again, s := WriteSlice(script[used]);
        AtMostAll();
        AnsweredSnoc(old(slices), more, s, script);
        more := more + [s];
        used := used + 1;
      }
      InsideBuffer();
      if currentTxBytes >= totalTxBytes {
        Close();
      }
    }

    method Close()
      requires Valid() && currentTxBytes == totalTxBytes
      modifies `closes
      ensures Valid() && closes == old(closes) + 1
    {
      closes := closes + 1;
    }

    lemma AtMostAll()
      requires Valid()
      ensures currentTxBytes <= totalTxBytes
    {
    }

    lemma InsideBuffer()
      requires Valid()
      ensures forall k :: 0 <= k < |slices| ==> slices[k].offset + slices[k].offer <= writeSize
    {
      hide Total;
    }

    /** `StartFlow` and any number of callbacks. The transfer can only be unfinished while the socket has
        no space left, and the connection is closed exactly when what the socket took adds up to
        everything. */
    method Transfer(callbacks: seq<seq<Reply>>) returns (ghost used: seq<nat>)
      requires Valid() && closes == 0
      modifies this
      ensures Valid() && accepted == Stream(writeSize, currentTxBytes)
      ensures closes > 0 <==> callbacks != [] && Total(slices) == totalTxBytes
      ensures closes > 0 ==> accepted == Stream(writeSize, totalTxBytes)
      ensures |used| == |callbacks| && forall i :: 0 <= i < |callbacks| ==> used[i] <= |callbacks[i]|
      ensures closes == 0 ==> forall i :: 0 <= i < |callbacks| ==> Blocked(callbacks[i], used[i])
      ensures (exists i :: 0 <= i < |callbacks| && AllWilling(callbacks[i]) && |callbacks[i]| >= totalTxBytes) ==>
                closes > 0
    {
      used := [];
      hide Stream, Total, AllProper, Filled, Blocked, AllWilling;
      for i := 0 to |callbacks|
        invariant Valid() && |used| == i && (i == 0 ==> closes == 0)
        invariant i > 0 ==> (closes > 0 <==> currentTxBytes == totalTxBytes)
        invariant forall k :: 0 <= k < i ==> used[k] <= |callbacks[k]|
        invariant closes == 0 ==> forall k :: 0 <= k < i ==> Blocked(callbacks[k], used[k])
        invariant (exists k :: 0 <= k < i && AllWilling(callbacks[k]) && |callbacks[k]| >= totalTxBytes) ==> closes > 0
      {
        ghost var more := WriteUntilBufferFull(callbacks[i]);
        used := used + [|more|];
      }
    }
  }

  lemma ModAdd(a: nat, i: nat, size: nat)
    requires size > 0 && a % size + i < size
    ensures (a + i) % size == a % size + i
  {
    var q, r := a / size, a % size;
    assert a + i == size * q + (r + i);
    ModUnique(a + i, size, q, r + i);
  }

  lemma ModUnique(x: int, size: nat, q: int, r: nat)
    requires size > 0 && x == size * q + r && r < size
    ensures x % size == r
  {
    var d := x / size - q;
    assert x == size * (x / size) + x % size;
    assert size * (x / size) - size * q == size * d;
    assert size * d == r - x % size;
    NoSmallMultiple(size, d);
  }

  lemma NoSmallMultiple(size: nat, d: int)
    requires size > 0
    ensures d > 0 ==> size * d >= size
    ensures d < 0 ==> size * d + size <= 0
  {
  }

  const TOTAL_TX_BYTES := 2000000
  const WRITE_SIZE := 1040

  /** With the constants of the program any transfer, however the socket behaves, puts out a prefix of
      the endless alphabet, as many bytes as the socket took in all. The connection is closed exactly
      when these are all bytes, and a socket that always takes something gets them all. */
  method TcpLargeTransfer(callbacks: seq<seq<Reply>>) returns (sender: Sender)
    ensures fresh(sender) && sender.currentTxBytes == Total(sender.slices) <= TOTAL_TX_BYTES
    ensures sender.accepted == Alphabet(sender.currentTxBytes)
    ensures AllProper(TOTAL_TX_BYTES, WRITE_SIZE, sender.slices)
    ensures sender.closes > 0 <==> callbacks != [] && Total(sender.slices) == TOTAL_TX_BYTES
    ensures sender.closes > 0 ==> sender.accepted == Alphabet(TOTAL_TX_BYTES)
    ensures (exists i :: 0 <= i < |callbacks| && AllWilling(callbacks[i]) && |callbacks[i]| >= TOTAL_TX_BYTES) ==>
              sender.closes > 0
  {
    sender := new Sender(TOTAL_TX_BYTES, WRITE_SIZE);
    ghost var used := sender.Transfer(callbacks);
    assert WRITE_SIZE % 26 == 0;
    SplicedIff(WRITE_SIZE, sender.currentTxBytes);
    SplicedIff(WRITE_SIZE, TOTAL_TX_BYTES);
  }
}
