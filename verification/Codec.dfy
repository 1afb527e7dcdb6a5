/** What `prepare_send` produces for each wire format, and what the reference parser of
    module Framing reads back from it. */
module Codec {
  import opened Bytes
  import opened Framing

  /** The 4 big-endian bytes of a 32-bit length; longer lengths lose their high bits. */
  function Header(n: nat): (h: Message)
    ensures |h| == 4
  {
    [(n / 0x100_0000 % 0x100) as byte, (n / 0x1_0000 % 0x100) as byte,
     (n / 0x100 % 0x100) as byte, (n % 0x100) as byte]
  }

  lemma HeaderDeclares(n: nat, payload: Message)
    ensures Declared(Header(n) + payload) == n % TWO_32
    ensures n < TWO_32 ==> Declared(Header(n) + payload) == n
  {
    var d0, d1, d2, d3 := n / 0x100_0000 % 0x100, n / 0x1_0000 % 0x100, n / 0x100 % 0x100, n % 0x100;
    BytesOf(n);
    assert Declared(Header(n) + payload) == d0 * 0x100_0000 + d1 * 0x1_0000 + d2 * 0x100 + d3;
  }

  lemma BytesOf(n: nat)
    ensures n % TWO_32 == n / 0x100_0000 % 0x100 * 0x100_0000 + n / 0x1_0000 % 0x100 * 0x1_0000
                          + n / 0x100 % 0x100 * 0x100 + n % 0x100
  {
    var q1, q2, q3, q4 := n / 0x100, n / 0x1_0000, n / 0x100_0000, n / TWO_32;
    assert q1 / 0x100 == q2 && q2 / 0x100 == q3 && q3 / 0x100 == q4;
    assert n == q4 * TWO_32 + (q3 % 0x100 * 0x100_0000 + q2 % 0x100 * 0x1_0000
                               + q1 % 0x100 * 0x100 + n % 0x100);
  }

  function Zeros(n: nat): (z: Message)
    ensures |z| == n
  {
    seq(n, _ => 0)
  }

  function Encode(p: Protocol, m: Message): Message {
    match p
    case Line => m + [CR, LF]
    case Fixed(n) => if n <= |m| then m[..n] else m + Zeros(n - |m|)
    case Binary => Header(|m|) + m
  }

  /** The binary encoder sizes its output with 32-bit arithmetic: beyond this length the output
      vector is shorter than what is copied into it. */
  predicate Encodable(p: Protocol, m: Message) {
    p.Binary? ==> 4 + |m| < TWO_32
  }

  /** What a message becomes on its way through a fixed frame: cut, or padded with zeros. */
  function Canonical(p: Protocol, m: Message): Message {
    if p.Fixed? then Encode(p, m) else m
  }

  function EncodeAll(p: Protocol, ms: seq<Message>): Message {
    if ms == [] then [] else Encode(p, ms[0]) + EncodeAll(p, ms[1..])
  }

  function CanonicalAll(p: Protocol, ms: seq<Message>): (r: seq<Message>)
    ensures |r| == |ms|
  {
    seq(|ms|, i requires 0 <= i < |ms| => Canonical(p, ms[i]))
  }

  lemma {:induction false} EncodeAllConcat(p: Protocol, a: seq<Message>, b: seq<Message>)
    ensures EncodeAll(p, a + b) == EncodeAll(p, a) + EncodeAll(p, b)
  {
    hide Encode;
    if a == [] {
      assert a + b == b;
    } else {
      EncodeAllConcat(p, a[1..], b);
      assert (a + b)[1..] == a[1..] + b;
    }
  }

  // ---------- Byte by byte ----------

  /** What is sent for a message: a line is followed by a carriage return and a line feed; a fixed
      frame holds the message's first bytes, and zeros where the message has no more; a binary
      message is preceded by its length in 4 big-endian bytes. */
  lemma EncodedBytes(p: Protocol, m: Message)
    ensures var e := Encode(p, m);
            match p
            case Line =>
              && |e| == |m| + 2 && e[..|m|] == m
              && e[|m|] as int == '\r' as int && e[|m| + 1] as int == '\n' as int
            case Fixed(n) =>
              |e| == n && forall k :: 0 <= k < n ==> e[k] == if k < |m| then m[k] else 0
            case Binary =>
              |e| == 4 + |m| && e[4..] == m && BigEndian(e[..4]) == |m| % TWO_32
  {
    if p.Binary? {
      HeaderDeclares(|m|, m);
      DeclaredIsBigEndian(Header(|m|) + m);
      hide Header, Declared;
      assert (Header(|m|) + m)[4..] == m;
    }
  }

  /** A message can be encoded exactly if the output size, computed in 32 bits, is the one needed. */
  lemma EncodableExactly(p: Protocol, m: Message)
    ensures Encodable(p, m) <==> (p.Binary? ==> (4 + |m|) % TWO_32 == |Encode(p, m)|)
  {
  }

  // ---------- Round trips ----------

  /** The messages a format carries without framing ambiguity. */
  predicate Carries(p: Protocol, m: Message) {
    (p.Line? ==> LF !in m) && Encodable(p, m)
  }

  /** One encoded message followed by anything reads back as that message. */
  lemma EncodeThenFront(p: Protocol, m: Message, tail: Message)
    requires Carries(p, m)
    ensures FrontOf(p, Encode(p, m) + tail) == Frame(Canonical(p, m), |Encode(p, m)|)
  {
    match p
    case Line => EncodedLineFront(m); FrontIsStable(p, Encode(p, m), tail);
    case Fixed(n) => assert Encode(p, m)[..n] == Encode(p, m); FrontIsStable(p, Encode(p, m), tail);
    case Binary => EncodedBinaryFront(m); FrontIsStable(p, Encode(p, m), tail);
  }

  lemma EncodedLineFront(m: Message)
    requires LF !in m
    ensures FrontOf(Line, m + [CR, LF]) == Frame(m, |m| + 2)
  {
    var s := m + [CR, LF];
    assert forall k :: 0 <= k < |m| ==> s[k] == m[k];
    assert s[|m|] == CR && s[|m| + 1] == LF;
    assert s[..|m| + 1] == m + [CR];
    assert StripCR(m + [CR]) == m;
  }

  lemma EncodedBinaryFront(m: Message)
    requires Encodable(Binary, m)
    ensures FrontOf(Binary, Header(|m|) + m) == Frame(m, 4 + |m|)
  {
    HeaderDeclares(|m|, m);
    hide Header, Declared;
    assert (Header(|m|) + m)[4..4 + |m|] == m;
  }

  /** Stream round trip: parsing the concatenated encodings returns the messages themselves
      (cut or padded to the frame size for fixed frames) and leaves nothing over. */
  lemma {:induction false} StreamRoundTrip(p: Protocol, ms: seq<Message>)
    requires forall m :: m in ms ==> Carries(p, m)
    ensures Parse(p, EncodeAll(p, ms)) == CanonicalAll(p, ms)
    ensures Rest(p, EncodeAll(p, ms)) == []
  {
    hide FrontOf, Encode, Canonical, Parse, Rest;
    if ms == [] {
      NothingToParse(p);
    } else {
      var first, rest := Encode(p, ms[0]), EncodeAll(p, ms[1..]);
      EncodeThenFront(p, ms[0], rest);
      ParseUnfold(p, first + rest);
      assert (first + rest)[|first|..] == rest;
      StreamRoundTrip(p, ms[1..]);
      assert CanonicalAll(p, ms) == [Canonical(p, ms[0])] + CanonicalAll(p, ms[1..]);
    }
  }

  lemma NothingToParse(p: Protocol)
    ensures Parse(p, []) == [] && Rest(p, []) == []
  {
  }

  /** A stream holds as many lines as line feeds. */
  lemma {:induction false} LinesAreLineFeeds(s: Message)
    ensures |Parse(Line, s)| == multiset(s)[LF]
    decreases |s|
  {
    var i := IndexOfLF(s);
    if i < |s| {
      assert s == s[..i] + [LF] + s[i + 1..];
      assert LF !in s[..i];
      LinesAreLineFeeds(s[i + 1..]);
    }
  }

  lemma EncodeAllFirst(p: Protocol, ms: seq<Message>)
    requires ms != []
    ensures EncodeAll(p, ms) == Encode(p, ms[0]) + EncodeAll(p, ms[1..])
  {
  }

  lemma LineFeedsOfOne(m: Message, rest: Message)
    ensures multiset(Encode(Line, m) + rest)[LF] == multiset(m)[LF] + 1 + multiset(rest)[LF]
  {
  }

  lemma {:induction false} LineFeedsOfEncodings(ms: seq<Message>)
    ensures multiset(EncodeAll(Line, ms))[LF] >= |ms|
    ensures multiset(EncodeAll(Line, ms))[LF] == |ms| ==> forall m :: m in ms ==> LF !in m
  {
    if ms != [] {
      hide EncodeAll, Encode;
      LineFeedsOfEncodings(ms[1..]);
      LineFeedsOfOne(ms[0], EncodeAll(Line, ms[1..]));
      EncodeAllFirst(Line, ms);
      assert forall m :: m in ms ==> m == ms[0] || m in ms[1..];
    }
  }

  /** The line format returns a message list unchanged exactly when no message holds a line
      feed; a message may well end in a carriage return. */
  lemma LineRoundTripExactly(ms: seq<Message>)
    ensures Parse(Line, EncodeAll(Line, ms)) == ms <==> forall m :: m in ms ==> LF !in m
  {
    if forall m :: m in ms ==> LF !in m {
      StreamRoundTrip(Line, ms);
      assert CanonicalAll(Line, ms) == ms;
    } else {
      LinesAreLineFeeds(EncodeAll(Line, ms));
      LineFeedsOfEncodings(ms);
    }
  }

  /** Fixed frames return a message list unchanged exactly when every message fills a frame. */
  lemma FixedRoundTripExactly(n: FrameSize, ms: seq<Message>)
    ensures Parse(Fixed(n), EncodeAll(Fixed(n), ms)) == ms <==> forall m :: m in ms ==> |m| == n
  {
    StreamRoundTrip(Fixed(n), ms);
    var cs := CanonicalAll(Fixed(n), ms);
    assert forall i :: 0 <= i < |ms| ==> |cs[i]| == n && (|ms[i]| == n ==> cs[i] == ms[i]);
    if m :| m in ms && |m| != n {
      var i :| 0 <= i < |ms| && ms[i] == m;
      assert cs[i] != ms[i];
    }
  }

  /** The binary format returns every list of encodable messages unchanged. */
  lemma BinaryRoundTrip(ms: seq<Message>)
    requires forall m :: m in ms ==> Encodable(Binary, m)
    ensures Parse(Binary, EncodeAll(Binary, ms)) == ms && Rest(Binary, EncodeAll(Binary, ms)) == []
  {
    StreamRoundTrip(Binary, ms);
    assert CanonicalAll(Binary, ms) == ms;
  }
}
