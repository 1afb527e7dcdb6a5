/** Bytes, messages and the flattening of a list of byte strings into a stream. */
module Bytes {
  newtype byte = x: int | 0 <= x < 256

  newtype uint32 = x: int | 0 <= x < 0x1_0000_0000

  type Message = seq<byte>

  /** The modulus of the source's `uint32_t` arithmetic. */
  const TWO_32: nat := 0x1_0000_0000

  function Min(a: int, b: int): int { if a < b then a else b }

  // ---------- Sums and slices ----------

  lemma Reassociate(a: Message, b: Message, c: Message)
    ensures (a + b) + c == a + (b + c)
  {
  }

  lemma HeadOfSum(a: Message, b: Message, n: nat)
    requires n <= |a|
    ensures (a + b)[..n] == a[..n]
  {
  }

  lemma TailOfSum(a: Message, b: Message, n: nat)
    requires n <= |a|
    ensures (a + b)[n..] == a[n..] + b
  {
  }

  function Flatten(parts: seq<Message>): Message {
    if parts == [] then [] else parts[0] + Flatten(parts[1..])
  }

  lemma {:induction false} FlattenConcat(a: seq<Message>, b: seq<Message>)
    ensures Flatten(a + b) == Flatten(a) + Flatten(b)
  {
    if a == [] {
      assert a + b == b;
    } else {
      hide Flatten;
      FlattenFirst(a);
      FlattenFirst(a + b);
      assert (a + b)[1..] == a[1..] + b && (a + b)[0] == a[0];
      FlattenConcat(a[1..], b);
      Reassociate(a[0], Flatten(a[1..]), Flatten(b));
    }
  }

  lemma FlattenFirst(parts: seq<Message>)
    requires parts != []
    ensures Flatten(parts) == parts[0] + Flatten(parts[1..])
  {
  }

  lemma FlattenSnoc(parts: seq<Message>, last: Message)
    ensures Flatten(parts + [last]) == Flatten(parts) + last
  {
    FlattenConcat(parts, [last]);
    assert Flatten([last]) == last + Flatten([]);
  }
}
