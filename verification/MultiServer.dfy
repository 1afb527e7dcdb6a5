/** The multi-threaded server's round robin over its io_contexts, and the accounting of its
    statistics handler. */
module MultiServer {
  import opened Bytes

  // ---------- Round robin ----------

  /** The first k picks from a pool of n contexts: the j-th is context j modulo n. */
  function Picks(n: nat, k: nat): (p: seq<nat>)
    requires 0 < n
    ensures |p| == k
  {
    seq(k, j => j % n)
  }

  lemma OneMorePick(n: nat, k: nat)
    requires 0 < n
    ensures Picks(n, k + 1) == Picks(n, k) + [k % n]
  {
  }

  /** After k picks context i was chosen exactly k/n times, and once more if i < k % n. */
  lemma {:induction false} PicksAreFair(n: nat, k: nat, i: nat)
    requires i < n
    ensures multiset(Picks(n, k))[i] == k / n + (if i < k % n then 1 else 0)
    decreases k
  {
    if k == 0 {
      Quotient(0, n, 0, 0);
    } else {
      PicksAreFair(n, k - 1, i);
      OneMorePick(n, k - 1);
      DivModStep(n, k - 1);
      hide Picks;
      var last: nat := (k - 1) % n;
      assert multiset(Picks(n, k)) == multiset(Picks(n, k - 1)) + multiset([last]);
    }
  }

  lemma DivModStep(n: nat, k: nat)
    requires 0 < n
    ensures if k % n == n - 1 then (k + 1) / n == k / n + 1 && (k + 1) % n == 0
            else (k + 1) / n == k / n && (k + 1) % n == k % n + 1
  {
    var q, r := k / n, k % n;
    assert k + 1 == q * n + (r + 1);
    if r == n - 1 {
      assert k + 1 == (q + 1) * n;
      Quotient(k + 1, n, q + 1, 0);
    } else {
      Quotient(k + 1, n, q, r + 1);
    }
  }

  lemma Quotient(x: nat, n: nat, q: nat, r: nat)
    requires 0 < n && x == q * n + r && r < n
    ensures x / n == q && x % n == r
  {
    var d := x / n - q;
    assert d * n == r - x % n;
    assert d > 0 ==> d * n >= n;
    assert d < 0 ==> d * n + n <= 0;
  }

  lemma NextIndex(n: nat, k: nat)
    requires 0 < n
    ensures (k % n + 1) % n == (k + 1) % n
  {
    DivModStep(n, k);
    if k % n == n - 1 {
      Quotient(n, n, 1, 0);
    } else {
      Quotient(k % n + 1, n, 0, k % n + 1);
    }
  }

  class IOContextPool {
    const size: nat
    var nextIndex: nat
    ghost var picked: seq<nat>

    ghost predicate Valid()
      reads this
    {
      0 < size && nextIndex == |picked| % size && picked == Picks(size, |picked|)
    }

    constructor (poolSize: nat)
      requires 0 < poolSize
      ensures Valid() && size == poolSize && picked == []
    {
      size := poolSize;
      nextIndex := 0;
      picked := [];
    }

    method GetNextIoContext() returns (index: nat)
      requires Valid()
      modifies this
      ensures Valid() && index < size
      ensures picked == old(picked) + [index]
    {
      OneMorePick(size, |picked|);
      NextIndex(size, |picked|);
      hide Picks;
      index := nextIndex;
      nextIndex := (nextIndex + 1) % size;
      picked := picked + [index];
    }
  }

  // ---------- Statistics ----------

  type SessionId = string

  /** `erased` is history: the characters of the entries removed so far. */
  datatype Stats = Stats(total: nat, messages: nat, perSession: map<SessionId, nat>, erased: nat)

  datatype StatEvent =
    | Created(id: SessionId)
    | Processed(id: SessionId, chars: nat)
    | Closed(id: SessionId)

  function CountOf(s: Stats, id: SessionId): nat {
    if id in s.perSession then s.perSession[id] else 0
  }

  function StatStep(s: Stats, e: StatEvent): Stats {
    match e
    case Created(id) => s.(perSession := s.perSession[id := 0])
    case Processed(id, n) =>
      s.(total := s.total + n, messages := s.messages + 1,
         perSession := s.perSession[id := CountOf(s, id) + n])
    case Closed(id) => s.(perSession := s.perSession - {id}, erased := s.erased + CountOf(s, id))
  }

  function StatsAfter(s: Stats, events: seq<StatEvent>): Stats
    decreases |events|
  {
    if events == [] then s else StatsAfter(StatStep(s, events[0]), events[1..])
  }

  /** Messages and characters among the events. */
  function MessagesIn(events: seq<StatEvent>): nat {
    if events == [] then 0 else (if events[0].Processed? then 1 else 0) + MessagesIn(events[1..])
  }

  function CharsIn(events: seq<StatEvent>): nat {
    if events == [] then 0
    else (if events[0].Processed? then events[0].chars else 0) + CharsIn(events[1..])
  }

  /** The counters count every processed message and all of its characters, whatever happens to the
      sessions. */
  lemma {:induction false} CountersCount(s: Stats, events: seq<StatEvent>)
    ensures StatsAfter(s, events).messages == s.messages + MessagesIn(events)
    ensures StatsAfter(s, events).total == s.total + CharsIn(events)
    decreases |events|
  {
    if events != [] {
      CountersCount(StatStep(s, events[0]), events[1..]);
    }
  }

  /** The characters processed for an id since it was last created or closed. */
  function CharsOf(events: seq<StatEvent>, id: SessionId, account: nat): nat
    decreases |events|
  {
    if events == [] then account
    else if events[0].id != id then CharsOf(events[1..], id, account)
    else CharsOf(events[1..], id, if events[0].Processed? then account + events[0].chars else 0)
  }

  /** Each account holds just these, and there is one unless the id was closed last or never seen. */
  lemma {:induction false} AccountsHoldTheirOwn(s: Stats, events: seq<StatEvent>, id: SessionId)
    ensures CountOf(StatsAfter(s, events), id) == CharsOf(events, id, CountOf(s, id))
    ensures forall i :: 0 <= i < |events| && events[i].id == id &&
                        (forall j :: i < j < |events| ==> events[j].id != id) ==>
              (id in StatsAfter(s, events).perSession <==> !events[i].Closed?)
    ensures (forall e :: e in events ==> e.id != id) ==>
              (id in StatsAfter(s, events).perSession <==> id in s.perSession)
    decreases |events|
  {
    if events != [] {
      var t, later := StatStep(s, events[0]), events[1..];
      AccountsHoldTheirOwn(t, later, id);
      assert forall e :: e in later ==> e in events;
      assert forall i :: 0 <= i < |later| ==> later[i] == events[i + 1];
      hide StatsAfter;
      assert StatsAfter(s, events) == StatsAfter(t, later) by { StatsUnfold(s, events); }
    }
  }

  lemma StatsUnfold(s: Stats, events: seq<StatEvent>)
    requires events != []
    ensures StatsAfter(s, events) == StatsAfter(StatStep(s, events[0]), events[1..])
  {
  }

  ghost function Sum(m: map<SessionId, nat>): nat
    decreases |m.Keys|
  {
    if m.Keys == {} then 0
    else
      var k :| k in m.Keys;
      assert (m - {k}).Keys == m.Keys - {k};
      m[k] + Sum(m - {k})
  }

  /** Any key may be summed first. */
  lemma {:induction false} SumWithout(m: map<SessionId, nat>, k: SessionId)
    requires k in m
    ensures Sum(m) == m[k] + Sum(m - {k})
    decreases |m.Keys|
  {
    var j :| j in m.Keys && Sum(m) == m[j] + Sum(m - {j});
    if j != k {
      var without := m - {j} - {k};
      assert m - {k} - {j} == without;
      hide Sum;
      assert (m - {j}).Keys == m.Keys - {j};
      SumWithout(m - {j}, k);
      assert (m - {k}).Keys == m.Keys - {k};
      SumWithout(m - {k}, j);
    }
  }

  lemma SumUpdate(m: map<SessionId, nat>, k: SessionId, v: nat)
    ensures Sum(m[k := v]) == v + Sum(m - {k})
  {
    SumWithout(m[k := v], k);
    assert m[k := v] - {k} == m - {k};
  }

  lemma SumRemove(m: map<SessionId, nat>, k: SessionId)
    ensures Sum(m - {k}) == Sum(m) - if k in m then m[k] else 0
  {
    if k in m {
      SumWithout(m, k);
    } else {
      assert m - {k} == m;
    }
  }

  /** Characters counted in the total that neither a live account nor an erased one shows. */
  ghost function Lost(s: Stats): int { s.total - Sum(s.perSession) - s.erased }

  ghost predicate Balanced(s: Stats) { Lost(s) == 0 }

  /** The characters an event makes disappear: creating a session wipes its account. */
  function Wiped(s: Stats, e: StatEvent): nat { if e.Created? then CountOf(s, e.id) else 0 }

  lemma StepLoses(s: Stats, e: StatEvent)
    ensures Lost(StatStep(s, e)) == Lost(s) + Wiped(s, e)
  {
    SumRemove(s.perSession, e.id);
    match e
    case Created(id) => SumUpdate(s.perSession, id, 0);
    case Processed(id, n) => SumUpdate(s.perSession, id, CountOf(s, id) + n);
    case Closed(id) =>
  }

  predicate NeverWipes(s: Stats, events: seq<StatEvent>)
    decreases |events|
  {
    events == [] || (Wiped(s, events[0]) == 0 && NeverWipes(StatStep(s, events[0]), events[1..]))
  }

  /** Losses never make up for each other: over a whole run the total stays the sum of the live
      accounts and the erased ones if and only if no event re-creates a session that has characters
      on its account. */
  lemma {:induction false} BalanceExactly(s: Stats, events: seq<StatEvent>)
    ensures Lost(StatsAfter(s, events)) >= Lost(s)
    ensures Lost(StatsAfter(s, events)) == Lost(s) <==> NeverWipes(s, events)
    decreases |events|
  {
    if events != [] {
      StepLoses(s, events[0]);
      hide Lost, Wiped, StatStep;
      BalanceExactly(StatStep(s, events[0]), events[1..]);
    }
  }

  /** What the server guarantees: its counter never gives out an id twice, and a session is created
      before anything else happens to it. */
  predicate CreatedFirst(events: seq<StatEvent>) {
    forall i, j :: 0 <= j < i < |events| && events[i].Created? ==> events[j].id != events[i].id
  }

  /** So the server's own runs are always balanced. */
  lemma ServerBalances(events: seq<StatEvent>)
    requires CreatedFirst(events)
    ensures Balanced(StatsAfter(Stats(0, 0, map[], 0), events))
  {
    FreshNeverWipes(Stats(0, 0, map[], 0), events);
    BalanceExactly(Stats(0, 0, map[], 0), events);
  }

  lemma {:induction false} FreshNeverWipes(s: Stats, events: seq<StatEvent>)
    requires CreatedFirst(events)
    requires forall e :: e in events && e.Created? ==> e.id !in s.perSession
    ensures NeverWipes(s, events)
    decreases |events|
  {
    if events != [] {
      var t, later := StatStep(s, events[0]), events[1..];
      assert forall i :: 0 <= i < |later| ==> later[i] == events[i + 1];
      forall e | e in later && e.Created? ensures e.id !in t.perSession {
        var i :| 0 <= i < |later| && later[i] == e;
        assert events[i + 1] == e && e in events && events[0].id != e.id;
      }
      FreshNeverWipes(t, later);
    }
  }

  // ---------- The handler ----------

  /** The modulus of the counters' `size_t`. */
  const TWO_64: nat := 0x1_0000_0000_0000_0000

  /** std::to_string of an unsigned number. */
  function Decimal(n: nat): (text: string)
    ensures text != []
  {
    if n < 10 then [Digit(n)] else Decimal(n / 10) + [Digit(n % 10)]
  }

  function Digit(d: nat): char
    requires d < 10
  {
    "0123456789"[d]
  }

  predicate IsDigit(c: char) { '0' <= c <= '9' }

  function DigitValue(c: char): nat { if IsDigit(c) then (c - '0') as int else 0 }

  function ValueOf(text: string): nat {
    if text == [] then 0 else 10 * ValueOf(text[..|text| - 1]) + DigitValue(text[|text| - 1])
  }

  /** A reported number consists of digits, has no leading zeros and can be read back. */
  lemma {:induction false} DecimalReadsBack(n: nat)
    ensures ValueOf(Decimal(n)) == n && forall c :: c in Decimal(n) ==> IsDigit(c)
    ensures Decimal(n)[0] == '0' ==> n == 0 && Decimal(n) == "0"
  {
    var text, last := Decimal(n), n % 10;
    assert IsDigit(Digit(last)) && DigitValue(Digit(last)) == last;
    assert text[|text| - 1] == Digit(last);
    if n < 10 {
      assert text[..0] == [];
    } else {
      DecimalReadsBack(n / 10);
      assert text[..|text| - 1] == Decimal(n / 10);
    }
  }

  function Answer(size: nat, total: nat, messages: nat): string {
    "Received " + Decimal(size) + " chars. " +
    "Total: " + Decimal(total) + " chars, " +
    "Messages: " + Decimal(messages)
  }

  /** The length of the run of digits at the front of a text. */
  function DigitsAtFront(text: string): (n: nat)
    ensures n <= |text| && (forall i :: 0 <= i < n ==> IsDigit(text[i]))
    ensures n < |text| ==> !IsDigit(text[n])
  {
    if text == [] || !IsDigit(text[0]) then 0 else 1 + DigitsAtFront(text[1..])
  }

  /** The numbers in a text, in order, and the text without them. */
  function NumbersIn(text: string): seq<nat>
    decreases |text|
  {
    if text == [] then []
    else
      var n := DigitsAtFront(text);
      if n == 0 then NumbersIn(text[1..]) else [ValueOf(text[..n])] + NumbersIn(text[n..])
  }

  function WordsIn(text: string): string {
    if text == [] then [] else (if IsDigit(text[0]) then [] else [text[0]]) + WordsIn(text[1..])
  }

  lemma {:induction false} WordsFirst(words: string, rest: string)
    requires forall c :: c in words ==> !IsDigit(c)
    ensures NumbersIn(words + rest) == NumbersIn(rest) && WordsIn(words + rest) == words + WordsIn(rest)
  {
    if words == [] {
      assert words + rest == rest;
    } else {
      assert words[0] in words && (words + rest)[0] == words[0];
      assert (words + rest)[1..] == words[1..] + rest;
      WordsFirst(words[1..], rest);
    }
  }

  lemma NumberFirst(digits: string, rest: string)
    requires digits != [] && forall c :: c in digits ==> IsDigit(c)
    requires rest != [] ==> !IsDigit(rest[0])
    ensures NumbersIn(digits + rest) == [ValueOf(digits)] + NumbersIn(rest)
    ensures WordsIn(digits + rest) == WordsIn(rest)
  {
    var text := digits + rest;
    assert forall i :: 0 <= i < |digits| ==> text[i] == digits[i] && digits[i] in digits;
    assert rest != [] ==> text[|digits|] == rest[0];
    assert DigitsAtFront(text) == |digits|;
    assert text[..|digits|] == digits && text[|digits|..] == rest;
    OnlyDigits(digits, rest);
  }

  lemma {:induction false} OnlyDigits(digits: string, rest: string)
    requires forall c :: c in digits ==> IsDigit(c)
    ensures WordsIn(digits + rest) == WordsIn(rest)
  {
    if digits == [] {
      assert digits + rest == rest;
    } else {
      assert digits[0] in digits && (digits + rest)[0] == digits[0];
      assert (digits + rest)[1..] == digits[1..] + rest;
      OnlyDigits(digits[1..], rest);
    }
  }

  /** The numbers of an answer are the data's size, the total and the message count, in this order,
      and around them stands this text. */
  lemma AnswerReports(size: nat, total: nat, messages: nat)
    ensures NumbersIn(Answer(size, total, messages)) == [size, total, messages]
    ensures WordsIn(Answer(size, total, messages)) == "Received  chars. Total:  chars, Messages: "
  {
    hide Decimal, NumbersIn, WordsIn, ValueOf, IsDigit, AllDigits, AllWords;
    Reported(size);
    Reported(total);
    Reported(messages);
    AnswerWords();
    Regrouped(FIRST, Decimal(size), " chars. ", "Total: ", Decimal(total), " chars, ",
              "Messages: ", Decimal(messages));
    Sentence(FIRST, Decimal(size), SECOND, Decimal(total), THIRD, Decimal(messages));
  }

  const FIRST := "Received "
  const SECOND := " chars. Total: "
  const THIRD := " chars, Messages: "

  lemma AnswerWords()
    ensures AllWords(FIRST) && AllWords(SECOND) && AllWords(THIRD)
    ensures " chars. " + "Total: " == SECOND && " chars, " + "Messages: " == THIRD
    ensures FIRST + (SECOND + THIRD) == "Received  chars. Total:  chars, Messages: "
  {
    FirstWords();
    SecondWords();
    ThirdWords();
    hide AllWords;
  }

  lemma FirstWords() ensures AllWords(FIRST) {}

  lemma SecondWords() ensures AllWords(SECOND) {}

  lemma ThirdWords() ensures AllWords(THIRD) {}

  lemma Reported(n: nat)
    ensures AllDigits(Decimal(n)) && ValueOf(Decimal(n)) == n
  {
    DecimalReadsBack(n);
  }

  lemma Regrouped(a: string, b: string, c: string, d: string, e: string, f: string, g: string, h: string)
    ensures a + b + c + d + e + f + g + h == a + (b + ((c + d) + (e + ((f + g) + h))))
  {
  }

  predicate AllDigits(text: string) { text != [] && forall c :: c in text ==> IsDigit(c) }

  /** Words that can follow a number. */
  predicate AllWords(text: string) { text != [] && forall c :: c in text ==> !IsDigit(c) }

  lemma Sentence(a: string, x: string, b: string, y: string, c: string, z: string)
    requires AllWords(a) && AllWords(b) && AllWords(c) && AllDigits(x) && AllDigits(y) && AllDigits(z)
    ensures NumbersIn(a + (x + (b + (y + (c + z))))) == [ValueOf(x), ValueOf(y), ValueOf(z)]
    ensures WordsIn(a + (x + (b + (y + (c + z))))) == a + (b + c)
  {
    hide NumbersIn, WordsIn, ValueOf, IsDigit;
    assert z + [] == z && (c + z)[0] == c[0] && c[0] in c;
    assert (b + (y + (c + z)))[0] == b[0] && b[0] in b;
    NothingIn();
    NumberFirst(z, []);
    WordsFirst(c, z);
    NumberFirst(y, c + z);
    WordsFirst(b, y + (c + z));
    NumberFirst(x, b + (y + (c + z)));
    WordsFirst(a, x + (b + (y + (c + z))));
  }

  lemma NothingIn()
    ensures NumbersIn([]) == [] && WordsIn([]) == []
  {
  }

  function Wrapped(n: nat): nat { n % TWO_64 }

  /** The counters wrap around; the exact numbers they stand for are ghost. */
  class StatisticsHandler {
    var totalChars: nat
    var messageCount: nat
    var sessionStats: map<SessionId, nat>
    ghost var exact: Stats

    ghost predicate Valid()
      reads this
    {
      && totalChars == Wrapped(exact.total) && messageCount == Wrapped(exact.messages)
      && sessionStats.Keys == exact.perSession.Keys
      && forall id :: id in sessionStats ==> sessionStats[id] == Wrapped(exact.perSession[id])
    }

    constructor ()
      ensures Valid() && exact == Stats(0, 0, map[], 0)
    {
      totalChars, messageCount, sessionStats := 0, 0, map[];
      exact := Stats(0, 0, map[], 0);
    }

    /** The answer reports the data's size and the counters, this message included. */
    method Process(data: Message, id: SessionId) returns (answer: string)
      requires Valid()
      modifies this
      ensures Valid() && exact == StatStep(old(exact), Processed(id, |data|))
      ensures Lost(exact) == old(Lost(exact))
      ensures answer == Answer(|data|, Wrapped(exact.total), Wrapped(exact.messages))
    {
      hide Wrapped, Lost, Answer;
      StepLoses(exact, Processed(id, |data|));
      WrapsOnce(exact.total, |data|);
      WrapsOnce(exact.messages, 1);
      WrapsOnce(CountOf(exact, id), |data|);
      totalChars := Wrapped(totalChars + |data|);
      messageCount := Wrapped(messageCount + 1);
      if id !in sessionStats {
        sessionStats := sessionStats[id := 0];
      }
      sessionStats := sessionStats[id := Wrapped(sessionStats[id] + |data|)];
      exact := StatStep(exact, Processed(id, |data|));
      answer := Answer(|data|, totalChars, messageCount);
    }

    /** The one step that can unbalance the accounts. */
    method OnSessionCreated(id: SessionId)
      requires Valid()
      modifies this
      ensures Valid() && exact == StatStep(old(exact), Created(id))
      ensures Lost(exact) == old(Lost(exact)) <==> CountOf(old(exact), id) == 0
    {
      StepLoses(exact, Created(id));
      sessionStats := sessionStats[id := 0];
      exact := StatStep(exact, Created(id));
    }

    /** The log line reads the account and thereby creates a missing one before it is erased. */
    method OnSessionClosed(id: SessionId)
      requires Valid()
      modifies this
      ensures Valid() && exact == StatStep(old(exact), Closed(id))
      ensures Lost(exact) == old(Lost(exact)) && id !in sessionStats
    {
      StepLoses(exact, Closed(id));
      if id !in sessionStats {
        sessionStats := sessionStats[id := 0];
      }
      sessionStats := sessionStats - {id};
      exact := StatStep(exact, Closed(id));
    }
  }

  /** Adding to a wrapped counter wraps like the exact sum. */
  lemma WrapsOnce(n: nat, add: nat)
    ensures Wrapped(Wrapped(n) + add) == Wrapped(n + add) && Wrapped(0) == 0
  {
    var q := n / TWO_64;
    assert n + add == q * TWO_64 + (n % TWO_64 + add);
    ModOfMultiple(q, n % TWO_64 + add);
  }

  lemma {:induction false} ModOfMultiple(q: nat, x: nat)
    ensures (q * TWO_64 + x) % TWO_64 == x % TWO_64
  {
    if q > 0 {
      ModOfMultiple(q - 1, x);
      assert q * TWO_64 + x == (q - 1) * TWO_64 + x + TWO_64;
    }
  }
}
