/** The connection buffer as a value: the vector's elements and capacity, the two indices and a
    count of how often the storage was replaced; that it is a byte queue, how large it grows, and
    when an append leaves bytes alone that an outstanding write still has to read. */
module BufferModel {
  import opened Bytes

  /** buf_size */
  const BUF_SIZE: nat := 4096

  datatype Buf = Buf(mem: Message, r: nat, w: nat, generation: nat, capacity: nat) {
    ghost predicate Valid() { r <= w < |mem| <= capacity }

    /** The unread bytes. */
    function Live(): Message
      requires r <= w <= |mem|
    {
      mem[r..w]
    }

    function Writable(): nat
      requires w <= |mem|
    {
      |mem| - w
    }
  }

  function NewBuf(size: nat): Buf { Buf(seq(size, _ => 0), 0, 0, 0, size) }

  /** mem with d written at position at. */
  function Splice(mem: Message, at: nat, d: Message): (m: Message)
    requires at + |d| <= |mem|
    ensures |m| == |mem|
  {
    mem[..at] + d + mem[at + |d|..]
  }

  function Grow(mem: Message, extra: nat): Message { mem + seq(extra, _ => 0) }

  /** vector::resize to a larger size. Within the capacity the elements stay where they are;
      beyond it they move to new storage, for which the library may reserve `spare` bytes more. */
  function Resized(b: Buf, size: nat, spare: nat): Buf
    requires |b.mem| <= size
  {
    var grown := b.(mem := Grow(b.mem, size - |b.mem|));
    if size <= b.capacity then grown
    else grown.(generation := b.generation + 1, capacity := size + spare)
  }

  // ---------- The operations ----------

  /** The guards of the first two branches of append. */
  predicate Fits(b: Buf, n: nat)
    requires b.w <= |b.mem|
  {
    b.Writable() > n
  }

  predicate Shifts(b: Buf, n: nat)
    requires b.w <= |b.mem|
  {
    b.r > |b.mem| - b.w + n
  }

  function GrowthFor(n: nat): nat { BUF_SIZE * (n / BUF_SIZE + 1) }

  /** Whether the growth of the third branch stays within the capacity. */
  predicate GrowsInPlace(b: Buf, n: nat) { |b.mem| + GrowthFor(n) <= b.capacity }

  predicate KeepsStorage(b: Buf, n: nat)
    requires b.w <= |b.mem|
  {
    Fits(b, n) || Shifts(b, n) || GrowsInPlace(b, n)
  }

  /** The live bytes moved to the front; what lay behind them stays. */
  function ShiftDown(b: Buf): Buf
    requires b.r <= b.w <= |b.mem|
  {
    b.(mem := Splice(b.mem, 0, b.Live()), r := 0, w := b.w - b.r)
  }

  function Put(b: Buf, d: Message): Buf
    requires b.w + |d| <= |b.mem|
  {
    b.(mem := Splice(b.mem, b.w, d), w := b.w + |d|)
  }

  /** The second branch leaves room for the data. */
  lemma ShiftMakesRoom(b: Buf, n: nat)
    requires b.r <= b.w <= |b.mem| && Shifts(b, n)
    ensures b.w - b.r + n < |b.mem|
  {
  }

  lemma GrowthIsEnough(n: nat)
    ensures n < GrowthFor(n) <= n + BUF_SIZE
  {
  }

  function Append(b: Buf, d: Message, spare: nat): (t: Buf)
    requires b.r <= b.w <= |b.mem| <= b.capacity
    ensures t.Valid()
  {
    if Fits(b, |d|) then Put(b, d)
    else if Shifts(b, |d|) then ShiftMakesRoom(b, |d|); Put(ShiftDown(b), d)
    else
      GrowthIsEnough(|d|);
      hide GrowthFor;
      Put(Resized(b, |b.mem| + GrowthFor(|d|), spare), d)
  }

  /** read_index_ += count in 32 bits; an emptied buffer starts again at the front. */
  function RetrieveRead(b: Buf, count: nat): (t: Buf)
    ensures b.Valid() ==> t.Valid()
  {
    var r := (b.r + count) % TWO_32;
    if r >= b.w then b.(r := 0, w := 0) else b.(r := r)
  }

  function RetrieveWrite(b: Buf, count: nat, spare: nat): Buf {
    if b.w + count >= |b.mem| then Resized(b.(w := |b.mem|), 2 * |b.mem|, spare)
    else b.(w := b.w + count)
  }

  function RetrieveBoth(b: Buf): Buf { b.(r := 0, w := 0) }

  function Adjust(b: Buf): (t: Buf)
    requires b.r <= b.w <= |b.mem|
    ensures b.Valid() ==> t.Valid()
  {
    if b.r >= |b.mem| - b.w then ShiftDown(b) else b
  }

  /** Bytes placed by the socket behind the write index, before retrieveWriteIndex counts them. */
  function Receive(b: Buf, d: Message, spare: nat): (t: Buf)
    requires b.w + |d| <= |b.mem|
    ensures b.Valid() ==> t.Valid()
  {
    RetrieveWrite(b.(mem := Splice(b.mem, b.w, d)), |d|, spare)
  }

  // ---------- A byte queue ----------

  function Drop(s: Message, count: nat): Message { s[Min(count, |s|)..] }

  /** All three branches append the data to the unread bytes; the storage is replaced exactly when
      the third one outgrows the capacity. */
  lemma AppendConcatenates(b: Buf, d: Message, spare: nat)
    requires b.Valid()
    ensures var t := Append(b, d, spare);
            && t.Valid() && t.Live() == b.Live() + d
            && (t.generation == b.generation <==> KeepsStorage(b, |d|))
            && (Fits(b, |d|) || Shifts(b, |d|) ==> |t.mem| == |b.mem|) && |b.mem| <= |t.mem|
  {
  }

  /** Growth is by the least multiple of 4096 above the data's length. */
  lemma GrowthIsLeast(n: nat)
    ensures GrowthFor(n) % 4096 == 0 && n < GrowthFor(n)
    ensures forall g: nat :: g % 4096 == 0 && n < g ==> GrowthFor(n) <= g
  {
    forall g: nat | g % 4096 == 0 && n < g ensures GrowthFor(n) <= g {
      assert g == 4096 * (g / 4096);
    }
  }

  /** On which indices and sizes an append takes which branch, and what that leaves: the data goes
      behind the unread bytes where they are if it leaves room there; otherwise they first move to
      the front if more bytes have been read than that would lack; otherwise the buffer grows, and
      the bytes it gains are zeros behind the data. */
  lemma AppendBranches(b: Buf, d: Message, spare: nat)
    requires b.Valid()
    ensures var t, n, size := Append(b, d, spare), |d|, |b.mem|;
            var inPlace, shifted := n < size - b.w, size - b.w <= n && size - b.w + n < b.r;
            && t.r == (if shifted then 0 else b.r)
            && t.w == b.w + n - (if shifted then b.r else 0)
            && (inPlace || shifted ==> |t.mem| == size && t.capacity == b.capacity)
            && (!inPlace && !shifted ==>
                  && |t.mem| == size + GrowthFor(n)
                  && t.capacity == (if |t.mem| <= b.capacity then b.capacity else |t.mem| + spare)
                  && t.mem[..b.w] == b.mem[..b.w]
                  && forall k :: t.w <= k < |t.mem| ==> t.mem[k] == 0)
  {
    if !Fits(b, |d|) && !Shifts(b, |d|) {
      GrowthIsEnough(|d|);
      hide GrowthFor;
      PutLeaves(Resized(b, |b.mem| + GrowthFor(|d|), spare), d);
    }
  }

  lemma PutLeaves(b: Buf, d: Message)
    requires b.w + |d| <= |b.mem|
    ensures var t := Put(b, d);
            && |t.mem| == |b.mem| && t.mem[..b.w] == b.mem[..b.w]
            && forall k :: t.w <= k < |t.mem| ==> t.mem[k] == b.mem[k]
  {
  }

  /** A new buffer holds nothing, is as large as asked for, and zeroed. */
  lemma NewIsAllRoom(size: nat)
    requires 0 < size
    ensures var b := NewBuf(size);
            && b.Valid() && b.r == b.w == 0 && |b.mem| == size == b.capacity
            && forall k :: 0 <= k < size ==> b.mem[k] == 0
  {
  }

  /** An emptied buffer is writable from its beginning, whichever way it was emptied. */
  lemma EmptiedIsAllRoom(b: Buf, count: nat)
    requires b.Valid() && |b.mem| < TWO_32 && b.w <= b.r + count < TWO_32
    ensures RetrieveRead(b, count).Valid() && RetrieveRead(b, count).Writable() == |b.mem|
    ensures RetrieveBoth(b).Valid() && RetrieveBoth(b).Writable() == |b.mem|
    ensures RetrieveRead(b, count).mem == b.mem == RetrieveBoth(b).mem
  {
    RetrievedIndex(b, count);
  }

  /** Retrieving drops the first min(count, readable) bytes exactly when the 32-bit sum does not
      wrap around; when it does, bytes already read come back. */
  lemma RetrieveReadExactly(b: Buf, count: nat)
    requires b.Valid() && |b.mem| < TWO_32 && count < TWO_32
    ensures RetrieveRead(b, count).Valid()
    ensures RetrieveRead(b, count).Live() == Drop(b.Live(), count) <==> b.r + count < TWO_32
    ensures TWO_32 <= b.r + count ==> |RetrieveRead(b, count).Live()| > |b.Live()|
  {
    RetrievedIndex(b, count);
    hide RetrieveRead;
    if b.r + count < b.w {
      assert b.mem[b.r + count..b.w] == b.Live()[count..];
    }
  }

  lemma RetrievedIndex(b: Buf, count: nat)
    requires b.Valid() && |b.mem| < TWO_32 && count < TWO_32
    ensures RetrieveRead(b, count) ==
            if b.r + count < b.w then b.(r := b.r + count)
            else if b.r + count < TWO_32 then b.(r := 0, w := 0)
            else b.(r := b.r + count - TWO_32)
  {
    if b.r + count < TWO_32 {
      assert (b.r + count) % TWO_32 == b.r + count;
    } else {
      assert (b.r + count) % TWO_32 == b.r + count - TWO_32 < b.r;
    }
  }

  lemma ReceiveConcatenates(b: Buf, d: Message, spare: nat)
    requires b.Valid() && |d| <= b.Writable()
    ensures var t := Receive(b, d, spare);
            && t.Valid() && t.Live() == b.Live() + d && t.r == b.r
            && (|d| < b.Writable() ==>
                  |t.mem| == |b.mem| && t.generation == b.generation && t.capacity == b.capacity)
            && (|d| == b.Writable() ==>
                  |t.mem| == 2 * |b.mem| && forall k :: |b.mem| <= k < |t.mem| ==> t.mem[k] == 0)
  {
  }

  /** After adjustInternal the two indices together stay below the size; if they already did,
      nothing moves. */
  lemma AdjustCompacts(b: Buf)
    requires b.Valid()
    ensures Adjust(b).Valid() && Adjust(b).Live() == b.Live() && |Adjust(b).mem| == |b.mem|
    ensures Adjust(b).r + Adjust(b).w < |b.mem|
    ensures b.r + b.w < |b.mem| ==> Adjust(b) == b
    ensures b.r + b.w >= |b.mem| ==> Adjust(b).r == 0
  {
  }

  datatype Op =
    | DoAppend(data: Message, spare: nat)
    | DoReceive(data: Message, spare: nat)
    | DoRetrieveRead(count: nat)
    | DoRetrieveBoth
    | DoAdjust

  /** What the operations ask of a caller: sizes stay below 2^32, the socket never brings more than
      the free room, and the read index does not wrap around. */
  ghost predicate Allowed(b: Buf, op: Op) {
    && b.w <= |b.mem| < TWO_32
    && match op
       case DoReceive(d, _) => |d| <= b.Writable()
       case DoRetrieveRead(count) => b.r + count < TWO_32
       case _ => true
  }

  function Apply(b: Buf, op: Op): (t: Buf)
    requires b.Valid() && Allowed(b, op)
    ensures t.Valid()
  {
    match op
    case DoAppend(d, spare) => Append(b, d, spare)
    case DoReceive(d, spare) => Receive(b, d, spare)
    case DoRetrieveRead(count) => RetrieveRead(b, count)
    case DoRetrieveBoth => RetrieveBoth(b)
    case DoAdjust => Adjust(b)
  }

  /** The same operation on a plain queue of bytes. */
  function QueueStep(q: Message, op: Op): Message {
    match op
    case DoAppend(d, _) => q + d
    case DoReceive(d, _) => q + d
    case DoRetrieveRead(count) => Drop(q, count)
    case DoRetrieveBoth => []
    case DoAdjust => q
  }

  function QueueAfter(q: Message, ops: seq<Op>): Message
    decreases |ops|
  {
    if ops == [] then q else QueueAfter(QueueStep(q, ops[0]), ops[1..])
  }

  lemma ApplyRefines(b: Buf, op: Op)
    requires b.Valid() && Allowed(b, op)
    ensures Apply(b, op).Valid() && Apply(b, op).Live() == QueueStep(b.Live(), op)
  {
    match op
    case DoAppend(d, spare) => AppendConcatenates(b, d, spare);
    case DoReceive(d, spare) => ReceiveConcatenates(b, d, spare);
    case DoRetrieveRead(count) => RetrieveReadExactly(b, count);
    case DoRetrieveBoth =>
    case DoAdjust => AdjustCompacts(b);
  }

  ghost predicate AllAllowed(b: Buf, ops: seq<Op>)
    requires b.Valid()
    decreases |ops|
  {
    ops == [] || (Allowed(b, ops[0]) && AllAllowed(Apply(b, ops[0]), ops[1..]))
  }

  ghost function BufAfter(b: Buf, ops: seq<Op>): Buf
    requires b.Valid() && AllAllowed(b, ops)
    decreases |ops|
  {
    if ops == [] then b else BufAfter(Apply(b, ops[0]), ops[1..])
  }

  /** Refinement: through any sequence of allowed operations the unread bytes are those of a
      plain byte queue, and the indices stay strictly inside the storage. */
  lemma {:induction false} BufferIsQueue(b: Buf, ops: seq<Op>)
    requires b.Valid() && AllAllowed(b, ops)
    ensures BufAfter(b, ops).Valid()
    ensures BufAfter(b, ops).Live() == QueueAfter(b.Live(), ops)
    decreases |ops|
  {
    if ops != [] {
      ApplyRefines(b, ops[0]);
      hide Apply;
      BufferIsQueue(Apply(b, ops[0]), ops[1..]);
    }
  }

  // ---------- Capacity ----------

  /** An append grows only a buffer that is mostly full of unread bytes. */
  lemma GrowthMeansFull(b: Buf, n: nat)
    requires b.Valid() && !Fits(b, n) && !Shifts(b, n)
    ensures |b.mem| <= |b.Live()| + 3 * n
  {
  }

  /** Output side: appends and reads only, each append of at most d bytes and finding at most
      `unread` unread ones. */
  ghost predicate OutputRun(b: Buf, ops: seq<Op>, d: nat, unread: nat)
    requires b.Valid()
    decreases |ops|
  {
    ops == [] ||
    (&& Allowed(b, ops[0])
     && (ops[0].DoAppend? || ops[0].DoRetrieveRead?)
     && (ops[0].DoAppend? ==> |ops[0].data| <= d && |b.Live()| <= unread)
     && OutputRun(Apply(b, ops[0]), ops[1..], d, unread))
  }

  /** The output buffer never exceeds unread + 4d + 4096 bytes. */
  lemma {:induction false} OutputCapacity(b: Buf, ops: seq<Op>, d: nat, unread: nat)
    requires b.Valid() && |b.mem| <= unread + 4 * d + BUF_SIZE
    requires OutputRun(b, ops, d, unread)
    ensures AllAllowed(b, ops) && |BufAfter(b, ops).mem| <= unread + 4 * d + BUF_SIZE
    decreases |ops|
  {
    if ops != [] {
      var next := Apply(b, ops[0]);
      ApplyRefines(b, ops[0]);
      OutputStepCapacity(b, ops[0], d, unread);
      hide Apply;
      OutputCapacity(next, ops[1..], d, unread);
    }
  }

  lemma OutputStepCapacity(b: Buf, op: Op, d: nat, unread: nat)
    requires b.Valid() && |b.mem| <= unread + 4 * d + BUF_SIZE
    requires Allowed(b, op) && (op.DoAppend? || op.DoRetrieveRead?)
    requires op.DoAppend? ==> |op.data| <= d && |b.Live()| <= unread
    ensures |Apply(b, op).mem| <= unread + 4 * d + BUF_SIZE
  {
  }

  /** Input side: what handleReceive does to its buffer. `skip` is what the receive callback
      retrieves; NoCallback when none is set. */
  datatype Skip = NoCallback | Skipped(count: nat)

  function Called(b: Buf, skip: Skip): Buf {
    if skip.Skipped? then RetrieveRead(b, skip.count) else b
  }

  datatype Reception = Reception(data: Message, skip: Skip, spare: nat)

  function Handled(b: Buf, c: Reception): (t: Buf)
    requires b.Valid() && |c.data| <= b.Writable()
    ensures t.Valid()
  {
    Called(Adjust(Receive(b, c.data, c.spare)), c.skip)
  }

  /** Between receptions the write index lies in the lower half of size plus unread. */
  ghost predicate Low(b: Buf, unread: nat) { 2 * b.w <= |b.mem| + unread }

  lemma HandledCapacity(b: Buf, r: Reception, c: nat, unread: nat)
    requires b.Valid() && Low(b, unread)
    requires |r.data| <= b.Writable() && |r.data| <= c && |b.Live()| + |r.data| <= unread
    ensures Low(Handled(b, r), unread)
    ensures |Handled(b, r).mem| == |b.mem| || |Handled(b, r).mem| <= 4 * c + 2 * unread
  {
  }

  // ---------- Bytes an outstanding write still reads ----------

  /** Whether an append of n bytes leaves physical bytes [lo..hi) of the current storage where
      and as they are, whatever the buffer and the data hold. */
  predicate Undisturbed(b: Buf, n: nat, lo: nat, hi: nat)
    requires b.r <= b.w <= |b.mem|
  {
    if Shifts(b, n) && !Fits(b, n) then b.w - b.r + n <= lo
    else (Fits(b, n) || GrowsInPlace(b, n)) && (n == 0 || b.w + n <= lo || hi <= b.w)
  }

  predicate SameBytes(b: Buf, t: Buf, lo: nat, hi: nat)
    requires lo <= hi <= |b.mem|
  {
    t.generation == b.generation && hi <= |t.mem| && t.mem[lo..hi] == b.mem[lo..hi]
  }

  lemma AppendUndisturbed(b: Buf, d: Message, spare: nat, lo: nat, hi: nat)
    requires b.Valid() && lo <= hi <= |b.mem| && Undisturbed(b, |d|, lo, hi)
    ensures SameBytes(b, Append(b, d, spare), lo, hi)
  {
    SameBytesExactly(b, d, spare, lo, hi);
  }

  /** What an append that keeps the storage leaves at a position of it. */
  function Landing(b: Buf, d: Message, at: nat): byte
    requires b.r <= b.w <= |b.mem| && at < |b.mem|
  {
    if Shifts(b, |d|) && !Fits(b, |d|) then
      if at < b.w - b.r then b.mem[at + b.r]
      else if at < b.w - b.r + |d| then d[at - (b.w - b.r)] else b.mem[at]
    else if b.w <= at < b.w + |d| then d[at - b.w]
    else b.mem[at]
  }

  lemma AppendedByte(b: Buf, d: Message, spare: nat, at: nat)
    requires b.Valid() && at < |b.mem| && KeepsStorage(b, |d|)
    ensures var t := Append(b, d, spare); |b.mem| <= |t.mem| && t.mem[at] == Landing(b, d, at)
  {
  }

  /** An append keeps a range exactly if it keeps the storage and what lands in the range is what
      was there. */
  lemma SameBytesExactly(b: Buf, d: Message, spare: nat, lo: nat, hi: nat)
    requires b.Valid() && lo <= hi <= |b.mem|
    ensures SameBytes(b, Append(b, d, spare), lo, hi) <==>
              KeepsStorage(b, |d|) && forall k :: lo <= k < hi ==> Landing(b, d, k) == b.mem[k]
  {
    var t := Append(b, d, spare);
    AppendConcatenates(b, d, spare);
    if KeepsStorage(b, |d|) {
      forall k | lo <= k < hi ensures |b.mem| <= |t.mem| && t.mem[k] == Landing(b, d, k) {
        AppendedByte(b, d, spare, k);
      }
      hide Append, Landing, Fits, Shifts;
      assert forall k :: lo <= k < hi ==> t.mem[lo..hi][k - lo] == t.mem[k];
      assert forall k :: lo <= k < hi ==> b.mem[lo..hi][k - lo] == b.mem[k];
    }
  }

  /** The condition is exact: for a non-empty range it holds if and only if every append of that
      length to every content of the storage keeps the range's bytes. */
  lemma AppendUndisturbedExactly(b: Buf, n: nat, spare: nat, lo: nat, hi: nat)
    requires b.Valid() && lo < hi <= |b.mem|
    ensures Undisturbed(b, n, lo, hi) <==>
              forall mem: Message, d: Message :: |mem| == |b.mem| && |d| == n ==>
                SameBytes(b.(mem := mem), Append(b.(mem := mem), d, spare), lo, hi)
  {
    if Undisturbed(b, n, lo, hi) {
      forall mem: Message, d: Message | |mem| == |b.mem| && |d| == n
        ensures SameBytes(b.(mem := mem), Append(b.(mem := mem), d, spare), lo, hi)
      {
        AppendUndisturbed(b.(mem := mem), d, spare, lo, hi);
      }
    } else {
      var mem, ones := DisturbingMem(b, n, lo), Copies(n, 1);
      DisturbingBytesDisturb(b, n, spare, lo, hi);
      assert !SameBytes(b.(mem := mem), Append(b.(mem := mem), ones, spare), lo, hi);
    }
  }

  function Copies(n: nat, value: byte): (m: Message)
    ensures |m| == n
  {
    seq(n, _ => value)
  }

  /** Zeros, but for a shift a one where it fetches the byte at lo from. */
  function DisturbingMem(b: Buf, n: nat, lo: nat): (mem: Message)
    requires b.w <= |b.mem|
    ensures |mem| == |b.mem|
  {
    seq(|b.mem|, i => if Shifts(b, n) && !Fits(b, n) && i == lo + b.r then 1 else 0)
  }

  lemma DisturbingBytesDisturb(b: Buf, n: nat, spare: nat, lo: nat, hi: nat)
    requires b.Valid() && lo < hi <= |b.mem| && !Undisturbed(b, n, lo, hi)
    ensures var c := b.(mem := DisturbingMem(b, n, lo));
            !SameBytes(c, Append(c, Copies(n, 1), spare), lo, hi)
  {
    var c, d := b.(mem := DisturbingMem(b, n, lo)), Copies(n, 1);
    assert KeepsStorage(c, n) == KeepsStorage(b, n);
    SameBytesExactly(c, d, spare, lo, hi);
    if KeepsStorage(b, n) {
      var k := DisturbedAt(b, n, lo);
      DisturbingByteLands(b, n, lo, hi);
      hide Append, SameBytes, KeepsStorage, Landing, DisturbingMem, DisturbedAt;
      assert Landing(c, d, k) != c.mem[k];
    }
  }

  /** Where the disturbing bytes do so. */
  function DisturbedAt(b: Buf, n: nat, lo: nat): nat
    requires b.w <= |b.mem|
  {
    if (Shifts(b, n) && !Fits(b, n)) || b.w < lo then lo else b.w
  }

  lemma DisturbingByteLands(b: Buf, n: nat, lo: nat, hi: nat)
    requires b.Valid() && lo < hi <= |b.mem| && !Undisturbed(b, n, lo, hi) && KeepsStorage(b, n)
    ensures var c, k := b.(mem := DisturbingMem(b, n, lo)), DisturbedAt(b, n, lo);
            lo <= k < hi && Landing(c, Copies(n, 1), k) == 1 && c.mem[k] == 0
  {
  }
}
