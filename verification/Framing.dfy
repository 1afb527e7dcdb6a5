/** The three wire formats of the multi-protocol server, as one reference parser over whole
    byte streams, and what a single `process_data` call does with the bytes it is given. */
module Framing {
  import opened Bytes

  const CR: byte := 13
  const LF: byte := 10

  type FrameSize = n: nat | 0 < n witness 1

  datatype Protocol = Line | Fixed(frameSize: FrameSize) | Binary

  /** The frame at the front of a byte string: its message and how many bytes it takes. */
  datatype Front = Partial | Frame(message: Message, size: nat)

  // ---------- The reference parser ----------

  function IndexOfLF(s: Message): (i: nat)
    ensures i <= |s|
    ensures forall j :: 0 <= j < i ==> s[j] != LF
    ensures i < |s| ==> s[i] == LF
  {
    if s == [] || s[0] == LF then 0 else 1 + IndexOfLF(s[1..])
  }

  function StripCR(line: Message): Message {
    if line != [] && line[|line| - 1] == CR then line[..|line| - 1] else line
  }

  /** The payload length announced by a big-endian 4-byte header. */
  function Declared(s: Message): (n: nat)
    requires 4 <= |s|
    ensures n < TWO_32
  {
    s[0] as int * 0x100_0000 + s[1] as int * 0x1_0000 + s[2] as int * 0x100 + s[3] as int
  }

  function FrontOf(p: Protocol, s: Message): (f: Front)
    ensures f.Frame? ==> 0 < f.size <= |s|
    ensures f.Frame? ==> |f.message| <= f.size
  {
    match p
    case Line =>
      var i := IndexOfLF(s);
      if i < |s| then Frame(StripCR(s[..i]), i + 1) else Partial
    case Fixed(n) =>
      if n <= |s| then Frame(s[..n], n) else Partial
    case Binary =>
      if 4 <= |s| && 4 + Declared(s) <= |s|
      then Frame(s[4..4 + Declared(s)], 4 + Declared(s)) else Partial
  }

  /** All complete messages of a stream, in order. */
  function Parse(p: Protocol, s: Message): seq<Message>
    decreases |s|
  {
    match FrontOf(p, s)
    case Partial => []
    case Frame(m, size) => [m] + Parse(p, s[size..])
  }

  /** The bytes after the last complete frame. */
  function Rest(p: Protocol, s: Message): Message
    decreases |s|
  {
    match FrontOf(p, s)
    case Partial => s
    case Frame(_, size) => Rest(p, s[size..])
  }

  // ---------- What the parser reads ----------

  /** A byte string as one big-endian number. */
  function BigEndian(s: Message): nat {
    if s == [] then 0 else 0x100 * BigEndian(s[..|s| - 1]) + s[|s| - 1] as int
  }

  lemma DeclaredIsBigEndian(s: Message)
    requires 4 <= |s|
    ensures Declared(s) == BigEndian(s[..4])
  {
    var h := s[..4];
    assert h[..3][..2] == h[..2] && h[..2][..1] == h[..1] && h[..1][..0] == [];
    assert BigEndian(h[..1]) == s[0] as int;
    assert BigEndian(h[..2]) == 0x100 * BigEndian(h[..1]) + s[1] as int;
    assert BigEndian(h[..3]) == 0x100 * BigEndian(h[..2]) + s[2] as int;
  }

  /** A line ends at its first line feed; one carriage return before that is not part of it, and
      nothing else is taken away. */
  lemma LineContent(m: Message, rest: Message)
    requires LF !in m
    ensures LF as int == '\n' as int && CR as int == '\r' as int
    ensures m == [] || m[|m| - 1] != CR ==> FrontOf(Line, m + [LF] + rest) == Frame(m, |m| + 1)
    ensures FrontOf(Line, m + [CR, LF] + rest) == Frame(m, |m| + 2)
  {
    LineFeedAt(m, rest);
    LineFeedAt(m + [CR], rest);
    assert m + [CR, LF] == m + [CR] + [LF];
  }

  lemma LineFeedAt(line: Message, rest: Message)
    requires LF !in line
    ensures FrontOf(Line, line + [LF] + rest) == Frame(StripCR(line), |line| + 1)
  {
    var s := line + [LF] + rest;
    assert s[|line|] == LF && forall k :: 0 <= k < |line| ==> s[k] == line[k];
    assert s[..|line|] == line;
  }

  /** The rest is a suffix of the stream that holds no complete frame. */
  lemma {:induction false} RestIsPartial(p: Protocol, s: Message)
    ensures FrontOf(p, Rest(p, s)).Partial?
    ensures |Rest(p, s)| <= |s| && Rest(p, s) == s[|s| - |Rest(p, s)|..]
    decreases |s|
  {
    match FrontOf(p, s)
    case Partial =>
    case Frame(_, size) =>
      RestIsPartial(p, s[size..]);
  }

  /** More bytes never change a frame that is already complete. */
  lemma FrontIsStable(p: Protocol, a: Message, b: Message)
    requires FrontOf(p, a).Frame?
    ensures FrontOf(p, a + b) == FrontOf(p, a)
  {
    match p
    case Line =>
      var i, j := IndexOfLF(a), IndexOfLF(a + b);
      assert (a + b)[i] == LF;
      assert forall k :: 0 <= k < |a| ==> (a + b)[k] == a[k];
      assert (a + b)[..i] == a[..i];
    case Fixed(n) =>
      assert (a + b)[..n] == a[..n];
    case Binary =>
      var n := 4 + Declared(a);
      assert (a + b)[4..n] == a[4..n];
  }

  /** The split law: parsing may stop anywhere and resume with the unparsed rest. */
  lemma {:induction false} ParseSplit(p: Protocol, a: Message, b: Message)
    ensures Parse(p, a + b) == Parse(p, a) + Parse(p, Rest(p, a) + b)
    ensures Rest(p, a + b) == Rest(p, Rest(p, a) + b)
    decreases |a|
  {
    hide FrontOf;
    if FrontOf(p, a).Partial? {
      assert Parse(p, a) == [] && Rest(p, a) == a;
    } else {
      var size := FrontOf(p, a).size;
      FrontIsStable(p, a, b);
      ParseUnfold(p, a);
      ParseUnfold(p, a + b);
      assert (a + b)[size..] == a[size..] + b;
      ParseSplit(p, a[size..], b);
    }
  }

  lemma ParseUnfold(p: Protocol, s: Message)
    requires FrontOf(p, s).Frame?
    ensures var f := FrontOf(p, s);
            Parse(p, s) == [f.message] + Parse(p, s[f.size..]) && Rest(p, s) == Rest(p, s[f.size..])
  {
  }

  // ---------- One process_data call ----------

  /** What one `process_data` call hands to the application and reports as consumed;
      `Overrun` is the case in which it would copy bytes that were never received. */
  datatype Outcome = Done(messages: seq<Message>, consumed: nat) | Overrun

  /** The line handler drains every complete line; the other two deliver at most one frame.
      `4 + payload_length` is computed in 32 bits by the binary handler. */
  function Process(p: Protocol, s: Message): (o: Outcome)
    ensures o.Done? ==> o.consumed <= |s|
  {
    match p
    case Line => RestIsPartial(Line, s); Done(Parse(Line, s), |s| - |Rest(Line, s)|)
    case Fixed(n) => if |s| < n then Done([], 0) else Done([s[..n]], n)
    case Binary =>
      if |s| < 4 then Done([], 0)
      else if |s| < (4 + Declared(s)) % TWO_32 then Done([], 0)
      else if |s| < 4 + Declared(s) then Overrun
      else Done([s[4..4 + Declared(s)]], 4 + Declared(s))
  }

  /** A call that does not overrun agrees with the reference parser: it delivers a prefix of
      what the bytes hold, keeps the remainder, and makes progress whenever a frame is there. */
  lemma ProcessAgrees(p: Protocol, s: Message)
    requires Process(p, s).Done?
    ensures var o := Process(p, s);
            && Parse(p, s) == o.messages + Parse(p, s[o.consumed..])
            && Rest(p, s) == Rest(p, s[o.consumed..])
    ensures |s| < TWO_32 ==> (Process(p, s).messages == [] <==> Parse(p, s) == [])
    ensures |s| < TWO_32 ==> (Process(p, s).consumed == 0 <==> Parse(p, s) == [])
    ensures p != Line ==> |Process(p, s).messages| <= 1
    ensures p == Line ==> Parse(p, s[Process(p, s).consumed..]) == []
    ensures forall m :: m in Process(p, s).messages ==> |m| <= |s|
  {
    var o := Process(p, s);
    if p.Line? {
      var rest := Rest(Line, s);
      RestIsPartial(Line, s);
      assert s[o.consumed..] == rest;
      assert Parse(Line, rest) == [] && Rest(Line, rest) == rest;
      MessagesAreShort(p, s);
      LineProgress(s);
    } else if FrontOf(p, s).Frame? && o.messages != [] {
      assert FrontOf(p, s) == Frame(o.messages[0], o.consumed);
    } else {
      assert s[0..] == s;
    }
  }

  lemma LineProgress(s: Message)
    ensures |Rest(Line, s)| == |s| <==> Parse(Line, s) == []
  {
    if FrontOf(Line, s).Frame? {
      RestIsPartial(Line, s[FrontOf(Line, s).size..]);
    }
  }

  lemma {:induction false} MessagesAreShort(p: Protocol, s: Message)
    ensures forall m :: m in Parse(p, s) ==> |m| <= |s|
    decreases |s|
  {
    match FrontOf(p, s)
    case Partial =>
    case Frame(m, size) => MessagesAreShort(p, s[size..]);
  }

  /** Exactly when a call copies bytes it never received: the announced length is within four
      of the 32-bit limit, so that the length test wraps around. */
  lemma OverrunExactly(p: Protocol, s: Message)
    requires |s| < TWO_32
    ensures Process(p, s).Overrun? <==> p.Binary? && 4 <= |s| && TWO_32 - 4 <= Declared(s)
  {
  }
}
