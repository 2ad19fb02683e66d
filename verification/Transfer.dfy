/** One-use byte transfers (apps/daemon/src/transfer.ts:36-100). Each call is one
    synchronous stretch; the clock reading and the random draws are parameters. */
module Transfer {

  type Byte = b: int | 0 <= b < 256

  const MAX_SAFE_INTEGER := 9007199254740991

  const TICKET_BYTES := 32

  const ATTEMPTS := 8

  predicate IsSafeInteger(n: int)
  {
    -MAX_SAFE_INTEGER <= n <= MAX_SAFE_INTEGER
  }

  /** One pending transfer. */
  datatype Entry = Entry(bytes: seq<Byte>, expiresAt: int)

  datatype Store = Store(pending: map<string, Entry>, pendingBytes: int)

  datatype Config = Config(maxBytes: int, ttlMs: int)

  /** What the constructor accepts. */
  predicate ValidConfig(c: Config)
  {
    IsSafeInteger(c.maxBytes) && c.maxBytes >= 1 && IsSafeInteger(c.ttlMs) && c.ttlMs >= 1
  }

  /** `entropy` holds what the random source would return on each attempt. */
  datatype Call =
    | Create(now: int, bytes: seq<Byte>, entropy: seq<seq<Byte>>)
    | Consume(now: int, ticket: string)
    | Close

  datatype Reply =
    | Created(ticket: string, byteSize: nat, expiresAt: int)
    | TooLarge
    | InvalidExpiry
    | InvalidEntropy
    | NoTicket
    | Delivered(bytes: seq<Byte>)
    | Nothing
    | Closed

  // ---- Tickets -------------------------------------------------------------------------

  predicate IsHexDigit(c: char)
  {
    'a' <= c <= 'f' || '0' <= c <= '9'
  }

  function HexDigit(n: int): (c: char)
    requires 0 <= n < 16
    ensures IsHexDigit(c)
  {
    if n < 10 then ('0' as int + n) as char else ('a' as int + n - 10) as char
  }

  function Hex(bytes: seq<Byte>): (s: string)
    ensures |s| == 2 * |bytes|
    ensures forall i :: 0 <= i < |s| ==> IsHexDigit(s[i])
  {
    if bytes == [] then "" else [HexDigit(bytes[0] / 16), HexDigit(bytes[0] % 16)] + Hex(bytes[1..])
  }

  predicate IsTicket(s: string)
  {
    |s| == 2 * TICKET_BYTES && forall i :: 0 <= i < |s| ==> IsHexDigit(s[i])
  }

  lemma HexIsTicket(bytes: seq<Byte>)
    requires |bytes| == TICKET_BYTES
    ensures IsTicket(Hex(bytes))
  {}

  lemma DigitOf(c: char) returns (n: int)
    requires IsHexDigit(c)
    ensures 0 <= n < 16 && HexDigit(n) == c
  {
    n := if c <= '9' then c as int - '0' as int else c as int - 'a' as int + 10;
  }

  lemma {:induction false} HexOnto(s: string) returns (bytes: seq<Byte>)
    requires |s| % 2 == 0 && forall i :: 0 <= i < |s| ==> IsHexDigit(s[i])
    ensures Hex(bytes) == s && 2 * |bytes| == |s|
    decreases |s|
  {
    if s == "" {
      bytes := [];
    } else {
      var rest := HexOnto(s[2..]);
      var high := DigitOf(s[0]);
      var low := DigitOf(s[1]);
      var b: Byte := 16 * high + low;
      bytes := [b] + rest;
      assert bytes[0] / 16 == high && bytes[0] % 16 == low && bytes[1..] == rest;
      assert s == [s[0], s[1]] + s[2..];
    }
  }

  /** The pattern of tickets matches exactly what draws of 32 bytes give. */
  lemma TicketExactly(s: string)
    ensures IsTicket(s) <==> exists bytes: seq<Byte> :: |bytes| == TICKET_BYTES && Hex(bytes) == s
  {
    if IsTicket(s) {
      var bytes := HexOnto(s);
    }
  }

  /** Different draws give different tickets. */
  lemma {:induction false} HexInjective(a: seq<Byte>, b: seq<Byte>)
    requires Hex(a) == Hex(b)
    ensures a == b
    decreases |a|
  {
    if a != [] {
      var s := Hex(a);
      assert |b| == |a|;
      assert s[0] == HexDigit(a[0] / 16) == HexDigit(b[0] / 16) && s[1] == HexDigit(a[0] % 16) == HexDigit(b[0] % 16);
      assert s[2..] == Hex(a[1..]) && s[2..] == Hex(b[1..]);
      HexInjective(a[1..], b[1..]);
      assert a == [a[0]] + a[1..] && b == [b[0]] + b[1..];
    }
  }

  // ---- The cached total --------------------------------------------------------------------

  /** The bytes of all pending transfers together. */
  ghost function Total(m: map<string, Entry>): nat
    decreases m.Keys
  {
    if m == map[] then 0
    else
      var t: string :| t in m;
      |m[t].bytes| + Total(m - {t})
  }

  lemma {:induction false} TotalWithout(m: map<string, Entry>, t: string)
    requires t in m
    ensures Total(m) == |m[t].bytes| + Total(m - {t})
    decreases m.Keys
  {
    var u: string :| u in m && Total(m) == |m[u].bytes| + Total(m - {u});
    if u != t {
      TotalWithout(m - {u}, t);
      TotalWithout(m - {t}, u);
      assert m - {u} - {t} == m - {t} - {u};
    }
  }

  lemma TotalWith(m: map<string, Entry>, t: string, e: Entry)
    requires t !in m
    ensures Total(m[t := e]) == Total(m) + |e.bytes|
  {
    TotalWithout(m[t := e], t);
    assert m[t := e] - {t} == m;
  }

  // ---- The calls ---------------------------------------------------------------------------

  function Unexpired(m: map<string, Entry>, now: int): map<string, Entry>
  {
    map t | t in m && m[t].expiresAt > now :: m[t]
  }

  datatype Search = Found(ticket: string) | BadDraw | Exhausted

  /** The first attempt that settles the search for a fresh ticket. */
  function FindTicket(pending: map<string, Entry>, entropy: seq<seq<Byte>>): Search
  {
    if entropy == [] then Exhausted
    else if |entropy[0]| != TICKET_BYTES then BadDraw
    else if Hex(entropy[0]) in pending then FindTicket(pending, entropy[1..])
    else Found(Hex(entropy[0]))
  }

  function Expired(m: map<string, Entry>, now: int): map<string, Entry>
  {
    map t | t in m && m[t].expiresAt <= now :: m[t]
  }

  /** `#prune`: the size of every expired entry is taken off the cached number. */
  ghost function Pruned(s: Store, now: int): Store
  {
    Store(Unexpired(s.pending, now), s.pendingBytes - Total(Expired(s.pending, now)))
  }

  lemma FindAt(pending: map<string, Entry>, entropy: seq<seq<Byte>>, k: nat)
    requires k < |entropy|
    ensures FindTicket(pending, entropy[k..]) ==
            if |entropy[k]| != TICKET_BYTES then BadDraw
            else if Hex(entropy[k]) in pending then FindTicket(pending, entropy[k + 1..])
            else Found(Hex(entropy[k]))
  {
    hide Hex;
    assert entropy[k..][0] == entropy[k] && entropy[k..][1..] == entropy[k + 1..];
  }

  lemma FindNone(pending: map<string, Entry>, entropy: seq<seq<Byte>>)
    ensures FindTicket(pending, entropy[|entropy|..]) == Exhausted
  {}

  ghost function CreateStep(c: Config, s: Store, now: int, bytes: seq<Byte>, entropy: seq<seq<Byte>>): (Store, Reply)
  {
    var p := Pruned(s, now);
    if |bytes| > c.maxBytes - p.pendingBytes then (p, TooLarge)
    else if !IsSafeInteger(now + c.ttlMs) then (p, InvalidExpiry)
    else
      match FindTicket(p.pending, entropy)
      case BadDraw => (p, InvalidEntropy)
      case Exhausted => (p, NoTicket)
      case Found(ticket) =>
        (Store(p.pending[ticket := Entry(bytes, now + c.ttlMs)], p.pendingBytes + |bytes|),
         Created(ticket, |bytes|, now + c.ttlMs))
  }

  ghost function ConsumeStep(s: Store, now: int, ticket: string): (Store, Reply)
  {
    if ticket !in s.pending then (s, Nothing)
    else
      var entry := s.pending[ticket];
      (Store(s.pending - {ticket}, s.pendingBytes - |entry.bytes|),
       if entry.expiresAt <= now then Nothing else Delivered(entry.bytes))
  }

  ghost function CallStep(c: Config, s: Store, call: Call): (Store, Reply)
  {
    match call
    case Create(now, bytes, entropy) => CreateStep(c, s, now, bytes, entropy)
    case Consume(now, ticket) => ConsumeStep(s, now, ticket)
    case Close => (Store(map[], 0), Closed)
  }

  ghost function CallStore(c: Config, s: Store, call: Call): Store
  {
    CallStep(c, s, call).0
  }

  ghost function CallReply(c: Config, s: Store, call: Call): Reply
  {
    CallStep(c, s, call).1
  }

  const EMPTY := Store(map[], 0)

  ghost predicate Inv(c: Config, s: Store)
  {
    && s.pendingBytes == Total(s.pending) <= c.maxBytes
    && forall t :: t in s.pending ==> IsTicket(t) && IsSafeInteger(s.pending[t].expiresAt)
  }

  lemma {:induction false} FoundIsFresh(pending: map<string, Entry>, entropy: seq<seq<Byte>>)
    ensures var r := FindTicket(pending, entropy); r.Found? ==> IsTicket(r.ticket) && r.ticket !in pending
    decreases |entropy|
  {
    if entropy != [] {
      FoundIsFresh(pending, entropy[1..]);
    }
  }

  /** Attempts fail only for want of entropy, or when every draw is already pending. */
  lemma {:induction false} NoTicketExactly(pending: map<string, Entry>, entropy: seq<seq<Byte>>)
    ensures FindTicket(pending, entropy).Exhausted? <==>
            forall i :: 0 <= i < |entropy| ==> |entropy[i]| == TICKET_BYTES && Hex(entropy[i]) in pending
    decreases |entropy|
  {
    if entropy != [] {
      NoTicketExactly(pending, entropy[1..]);
      assert entropy == [entropy[0]] + entropy[1..];
    }
  }

  /** What is expired and what is not share out the total. */
  lemma SplitWithout(m: map<string, Entry>, t: string, now: int)
    requires t in m
    ensures var kept, gone := Unexpired(m, now), Expired(m, now);
            var rest := m - {t};
            if m[t].expiresAt > now
            then t in kept && kept[t] == m[t] && Unexpired(rest, now) == kept - {t} && Expired(rest, now) == gone
            else t in gone && gone[t] == m[t] && Expired(rest, now) == gone - {t} && Unexpired(rest, now) == kept
  {}

  lemma {:induction false} TotalSplits(m: map<string, Entry>, now: int)
    ensures Total(m) == Total(Unexpired(m, now)) + Total(Expired(m, now))
    decreases m.Keys
  {
    if m == map[] {
      assert Unexpired(m, now) == m && Expired(m, now) == m;
    } else {
      hide Total, Unexpired, Expired;
      var t: string :| t in m;
      TotalWithout(m, t);
      TotalSplits(m - {t}, now);
      SplitWithout(m, t, now);
      TotalWithout(if m[t].expiresAt > now then Unexpired(m, now) else Expired(m, now), t);
    }
  }

  lemma PruneKeepsInv(c: Config, s: Store, now: int)
    requires Inv(c, s)
    ensures Inv(c, Pruned(s, now))
  {
    TotalSplits(s.pending, now);
  }

  /** The cached number, kept by additions and subtractions only, equals the sum of the
      pending sizes and never exceeds the maximum, whatever is called and whatever the
      clock says. */
  lemma CallKeepsInv(c: Config, s: Store, call: Call)
    requires ValidConfig(c) && Inv(c, s)
    ensures Inv(c, CallStore(c, s, call))
  {
    hide IsTicket;
    match call
    case Create(now, bytes, entropy) =>
      PruneKeepsInv(c, s, now);
      var kept := Pruned(s, now).pending;
      FoundIsFresh(kept, entropy);
      var found := FindTicket(kept, entropy);
      if found.Found? {
        TotalWith(kept, found.ticket, Entry(bytes, now + c.ttlMs));
      }
    case Consume(_, ticket) =>
      if ticket in s.pending {
        TotalWithout(s.pending, ticket);
      }
    case Close =>
  }

  /** The test against the cached number refuses a create for size exactly when the
      unexpired payloads and the new bytes together exceed the maximum; so expired ones
      never count, and payloads that fit together are never refused. */
  lemma RefusedForSizeExactly(c: Config, s: Store, now: int, bytes: seq<Byte>, entropy: seq<seq<Byte>>)
    requires ValidConfig(c) && Inv(c, s)
    ensures CallReply(c, s, Create(now, bytes, entropy)).TooLarge? <==>
            Total(map t | t in s.pending && now < s.pending[t].expiresAt :: s.pending[t]) + |bytes| > c.maxBytes
  {
    assert Unexpired(s.pending, now) == map t | t in s.pending && now < s.pending[t].expiresAt :: s.pending[t];
    PruneKeepsInv(c, s, now);
  }

  /** Draw k is the first that settles the search, and it gives a ticket that is free. */
  ghost predicate FirstFree(pending: map<string, Entry>, entropy: seq<seq<Byte>>, k: nat)
  {
    && k < |entropy| && |entropy[k]| == TICKET_BYTES && Hex(entropy[k]) !in pending
    && forall j :: 0 <= j < k ==> |entropy[j]| == TICKET_BYTES && Hex(entropy[j]) in pending
  }

  lemma {:induction false} FoundExactly(pending: map<string, Entry>, entropy: seq<seq<Byte>>, k: nat)
    ensures FirstFree(pending, entropy, k) ==> FindTicket(pending, entropy) == Found(Hex(entropy[k]))
    ensures FindTicket(pending, entropy).Found? ==> exists j: nat :: FirstFree(pending, entropy, j)
    decreases |entropy|
  {
    hide Hex;
    if entropy != [] {
      var rest := entropy[1..];
      assert entropy == [entropy[0]] + rest;
      if |entropy[0]| == TICKET_BYTES && Hex(entropy[0]) in pending {
        FoundExactly(pending, rest, if k > 0 then k - 1 else 0);
        if FindTicket(pending, rest).Found? {
          var j: nat :| FirstFree(pending, rest, j);
          assert FirstFree(pending, entropy, j + 1);
        }
      } else if FindTicket(pending, entropy).Found? {
        assert FirstFree(pending, entropy, 0);
      }
    }
  }

  /** A create succeeds exactly when the bytes fit beside the unexpired entries, the expiry
      is a safe integer, and some draw is of the right length and free, all before it being
      of the right length and taken; it then adds the bytes under that ticket. It is refused
      for its expiry exactly when only that is wrong before the draws. */
  lemma CreatedExactly(c: Config, s: Store, now: int, bytes: seq<Byte>, entropy: seq<seq<Byte>>, k: nat)
    requires ValidConfig(c) && Inv(c, s)
    ensures var call := Create(now, bytes, entropy);
            var store, reply := CallStore(c, s, call), CallReply(c, s, call);
            var left := Unexpired(s.pending, now);
            var fits, safe := Total(left) + |bytes| <= c.maxBytes, -MAX_SAFE_INTEGER <= now + c.ttlMs <= MAX_SAFE_INTEGER;
            && (reply.Created? <==> fits && safe && exists j: nat :: FirstFree(left, entropy, j))
            && (fits && safe && FirstFree(left, entropy, k) ==>
                  && reply == Created(Hex(entropy[k]), |bytes|, now + c.ttlMs)
                  && store.pending == left[Hex(entropy[k]) := Entry(bytes, now + c.ttlMs)])
            && (!reply.Created? ==> store.pending == left)
            && (reply.InvalidExpiry? <==> fits && !safe)
  {
    PruneKeepsInv(c, s, now);
    hide Hex, Total, Unexpired;
    FoundExactly(Unexpired(s.pending, now), entropy, k);
    if j: nat :| FirstFree(Unexpired(s.pending, now), entropy, j) {
      FoundExactly(Unexpired(s.pending, now), entropy, j);
    }
  }

  // ---- Whole runs ------------------------------------------------------------------------------

  /** The store after a history of calls; the last call is the latest. */
  ghost function After(c: Config, calls: seq<Call>): Store
  {
    if calls == [] then EMPTY
    else CallStore(c, After(c, calls[..|calls| - 1]), calls[|calls| - 1])
  }

  /** What the k-th call of a history answered. */
  ghost function Answer(c: Config, calls: seq<Call>, k: nat): Reply
    requires k < |calls|
  {
    CallReply(c, After(c, calls[..k]), calls[k])
  }

  lemma {:induction false} AlwaysInv(c: Config, calls: seq<Call>)
    requires ValidConfig(c)
    ensures Inv(c, After(c, calls))
    decreases |calls|
  {
    if calls != [] {
      AlwaysInv(c, calls[..|calls| - 1]);
      CallKeepsInv(c, After(c, calls[..|calls| - 1]), calls[|calls| - 1]);
    }
  }

  /** A call that ends a transfer: it consumes the ticket, in time or not, closes the
      store, or is a create that finds the transfer expired. */
  predicate Ends(call: Call, ticket: string, expiresAt: int)
  {
    match call
    case Create(now, _, _) => expiresAt <= now
    case Consume(_, t) => t == ticket
    case Close => true
  }

  /** Call k created a transfer under this ticket, and no call after k and before
      call n has ended it. */
  ghost predicate Live(c: Config, calls: seq<Call>, k: nat, n: nat, ticket: string)
    requires n <= |calls|
  {
    && k < n && calls[k].Create?
    && Answer(c, calls, k).Created? && Answer(c, calls, k).ticket == ticket
    && forall j :: k < j < n ==> !Ends(calls[j], ticket, Answer(c, calls, k).expiresAt)
  }

  /** The entry that call k creates. */
  ghost function EntryOf(c: Config, calls: seq<Call>, k: nat): Entry
    requires k < |calls| && calls[k].Create?
  {
    Entry(calls[k].bytes, calls[k].now + c.ttlMs)
  }

  ghost predicate PendingIsLive(c: Config, calls: seq<Call>, n: nat)
    requires n <= |calls|
  {
    && (forall t: string, k: nat :: Live(c, calls, k, n, t) ==>
          t in After(c, calls[..n]).pending && After(c, calls[..n]).pending[t] == EntryOf(c, calls, k))
    && (forall t :: t in After(c, calls[..n]).pending ==> exists k: nat :: Live(c, calls, k, n, t))
  }

  lemma AnswerCreated(c: Config, calls: seq<Call>, k: nat)
    requires k < |calls| && Answer(c, calls, k).Created?
    ensures calls[k].Create? && Answer(c, calls, k).expiresAt == calls[k].now + c.ttlMs
    ensures Answer(c, calls, k).ticket !in Unexpired(After(c, calls[..k]).pending, calls[k].now)
    ensures Answer(c, calls, k).byteSize == |calls[k].bytes|
  {
    if calls[k].Create? {
      FoundIsFresh(Unexpired(After(c, calls[..k]).pending, calls[k].now), calls[k].entropy);
    }
  }

  lemma AfterSnoc(c: Config, calls: seq<Call>, n: nat)
    requires n < |calls|
    ensures After(c, calls[..n + 1]) == CallStore(c, After(c, calls[..n]), calls[n])
  {
    assert calls[..n + 1][..n] == calls[..n];
  }

  lemma LiveStep(c: Config, calls: seq<Call>, k: nat, n: nat, t: string)
    requires n < |calls|
    ensures Live(c, calls, k, n + 1, t) <==>
            || (Live(c, calls, k, n, t) && !Ends(calls[n], t, Answer(c, calls, k).expiresAt))
            || (k == n && Answer(c, calls, n).Created? && Answer(c, calls, n).ticket == t)
  {
    if k == n && Answer(c, calls, n).Created? {
      AnswerCreated(c, calls, n);
    }
  }

  /** What a call does not end it leaves alone. */
  lemma Survives(c: Config, s: Store, call: Call, t: string)
    requires t in s.pending && !Ends(call, t, s.pending[t].expiresAt)
    ensures t in CallStore(c, s, call).pending && CallStore(c, s, call).pending[t] == s.pending[t]
    ensures !(CallReply(c, s, call).Created? && CallReply(c, s, call).ticket == t)
  {
    hide Total, IsSafeInteger, IsTicket;
    if call.Create? {
      FoundIsFresh(Unexpired(s.pending, call.now), call.entropy);
    }
  }

  lemma CreatedIsPending(c: Config, s: Store, call: Call)
    requires CallReply(c, s, call).Created?
    ensures call.Create?
    ensures var t := CallReply(c, s, call).ticket;
            t in CallStore(c, s, call).pending && CallStore(c, s, call).pending[t] == Entry(call.bytes, call.now + c.ttlMs)
  {
    hide Total, IsSafeInteger;
  }

  lemma StillPending(c: Config, calls: seq<Call>, k: nat, n: nat, t: string)
    requires n < |calls| && PendingIsLive(c, calls, n) && Live(c, calls, k, n + 1, t)
    ensures var s := CallStore(c, After(c, calls[..n]), calls[n]); t in s.pending && s.pending[t] == EntryOf(c, calls, k)
  {
    LiveStep(c, calls, k, n, t);
    AnswerCreated(c, calls, k);
    var s := After(c, calls[..n]);
    hide CallStore, CallStep, CallReply, After, Ends;
    if k == n {
      CreatedIsPending(c, s, calls[n]);
    } else {
      Survives(c, s, calls[n], t);
    }
  }

  lemma Remains(c: Config, s: Store, call: Call, t: string)
    requires t in CallStore(c, s, call).pending
    requires !(CallReply(c, s, call).Created? && CallReply(c, s, call).ticket == t)
    ensures t in s.pending && !Ends(call, t, s.pending[t].expiresAt)
  {
    hide Total, IsSafeInteger;
  }

  lemma StillLive(c: Config, calls: seq<Call>, n: nat, t: string) returns (k: nat)
    requires n < |calls| && PendingIsLive(c, calls, n) && t in CallStore(c, After(c, calls[..n]), calls[n]).pending
    ensures Live(c, calls, k, n + 1, t)
  {
    var r := Answer(c, calls, n);
    var s := After(c, calls[..n]);
    if r.Created? && r.ticket == t {
      hide Live;
      k := n;
      LiveStep(c, calls, n, n, t);
    } else {
      Remains(c, s, calls[n], t);
      hide CallStore, CallReply, CallStep, After, Ends;
      k :| Live(c, calls, k, n, t);
      AnswerCreated(c, calls, k);
      LiveStep(c, calls, k, n, t);
    }
  }

  /** One more call: what is pending afterwards is what is live afterwards. */
  lemma PendingStep(c: Config, calls: seq<Call>, n: nat)
    requires n < |calls| && PendingIsLive(c, calls, n)
    ensures PendingIsLive(c, calls, n + 1)
  {
    AfterSnoc(c, calls, n);
    hide After, Live, CallStep, EntryOf, Answer;
    var m := n + 1;
    var after := After(c, calls[..m]).pending;
    forall t: string, k: nat | Live(c, calls, k, m, t)
      ensures t in after && after[t] == EntryOf(c, calls, k)
    {
      StillPending(c, calls, k, n, t);
    }
    forall t: string | t in after ensures exists k: nat :: Live(c, calls, k, m, t) {
      var k := StillLive(c, calls, n, t);
    }
  }

  lemma {:induction false} PendingAlwaysLive(c: Config, calls: seq<Call>, n: nat)
    requires n <= |calls|
    ensures PendingIsLive(c, calls, n)
    decreases n
  {
    if n == 0 {
      assert calls[..0] == [];
    } else {
      PendingAlwaysLive(c, calls, n - 1);
      PendingStep(c, calls, n - 1);
    }
  }

  /** Call d hands out the payload call k created: under its ticket, unchanged,
      strictly before it expires, and with nothing in between having ended it. */
  ghost predicate HandsOut(c: Config, calls: seq<Call>, k: nat, d: nat)
    requires d < |calls|
  {
    && calls[d].Consume? && Live(c, calls, k, d, calls[d].ticket)
    && calls[d].now < calls[k].now + c.ttlMs
    && Answer(c, calls, d) == Delivered(calls[k].bytes)
  }

  /** In every run a consume delivers exactly when some creation under its ticket is
      still live and unexpired, and what it delivers is that creation's payload. */
  lemma DeliveredExactly(c: Config, calls: seq<Call>, d: nat)
    requires d < |calls| && calls[d].Consume?
    ensures Answer(c, calls, d).Delivered? <==> exists k: nat :: HandsOut(c, calls, k, d)
    ensures Answer(c, calls, d).Delivered? <==>
            exists k: nat :: Live(c, calls, k, d, calls[d].ticket) && calls[d].now < calls[k].now + c.ttlMs
  {
    PendingAlwaysLive(c, calls, d);
    var t := calls[d].ticket;
    if Answer(c, calls, d).Delivered? {
      var k: nat :| Live(c, calls, k, d, t);
      assert HandsOut(c, calls, k, d);
    }
    forall k: nat | Live(c, calls, k, d, t) && calls[d].now < calls[k].now + c.ttlMs
      ensures HandsOut(c, calls, k, d) {}
  }

  /** A ticket is not given out again while its transfer is live and unexpired. */
  lemma NotCreatedWhileLive(c: Config, calls: seq<Call>, k: nat, n: nat, t: string)
    requires n < |calls| && Live(c, calls, k, n, t) && !Ends(calls[n], t, Answer(c, calls, k).expiresAt)
    ensures !(Answer(c, calls, n).Created? && Answer(c, calls, n).ticket == t)
  {
    PendingAlwaysLive(c, calls, n);
    AnswerCreated(c, calls, k);
    if Answer(c, calls, n).Created? {
      AnswerCreated(c, calls, n);
    }
  }

  lemma OneLive(c: Config, calls: seq<Call>, k: nat, k': nat, n: nat, t: string)
    requires n <= |calls| && Live(c, calls, k, n, t) && Live(c, calls, k', n, t)
    ensures k == k'
  {
    if k < k' {
      NotCreatedWhileLive(c, calls, k, k', t);
    } else if k' < k {
      NotCreatedWhileLive(c, calls, k', k, t);
    }
  }

  /** A created payload is handed out at most once, and no consume hands out two. */
  lemma HandedOutAtMostOnce(c: Config, calls: seq<Call>, k: nat, d: nat, k': nat, d': nat)
    requires d < |calls| && d' < |calls| && HandsOut(c, calls, k, d) && HandsOut(c, calls, k', d')
    ensures k == k' <==> d == d'
  {
    if d == d' {
      OneLive(c, calls, k, k', d, calls[d].ticket);
    } else if k == k' {
      assert Ends(calls[d], calls[d'].ticket, Answer(c, calls, k).expiresAt);
      assert Ends(calls[d'], calls[d].ticket, Answer(c, calls, k).expiresAt);
    }
  }

  /** The entries left while those under `tickets` are still to be looked at. */
  ghost predicate PartlyPruned(left: map<string, Entry>, before: map<string, Entry>, tickets: set<string>, now: int)
  {
    && left.Keys <= before.Keys && tickets <= left.Keys
    && (forall t :: t in left ==> left[t] == before[t])
    && (forall t :: t in before ==> (t in left <==> t in tickets || before[t].expiresAt > now))
  }

  lemma PruneOne(left: map<string, Entry>, before: map<string, Entry>, tickets: set<string>, now: int, ticket: string)
    requires PartlyPruned(left, before, tickets, now) && ticket in tickets
    ensures PartlyPruned(if left[ticket].expiresAt <= now then left - {ticket} else left, before, tickets - {ticket}, now)
  {}

  lemma KeptIsUnexpired(left: map<string, Entry>, before: map<string, Entry>, now: int)
    requires PartlyPruned(left, before, {}, now)
    ensures left == Unexpired(before, now)
  {}

  // ---- The store object ------------------------------------------------------------------------

  datatype PendingTransfer = PendingTransfer(bytes: array<Byte>, expiresAt: int)

  class ByteTransferStore {
    const config: Config
    var pending: map<string, PendingTransfer>
    var pendingBytes: int

    /** The buffers the store keeps: copies no caller can reach. */
    ghost function Buffers(): set<object>
      reads this
    {
      set t | t in pending :: pending[t].bytes
    }

    ghost function Entries(): map<string, Entry>
      reads this, Buffers()
    {
      map t | t in pending :: Entry(pending[t].bytes[..], pending[t].expiresAt)
    }

    ghost function View(): Store
      reads this, Buffers()
    {
      Store(Entries(), pendingBytes)
    }

    ghost predicate Valid()
      reads this, Buffers()
    {
      && ValidConfig(config) && Inv(config, View())
      && forall t, u :: t in pending && u in pending && t != u ==> pending[t].bytes != pending[u].bytes
    }

    constructor (c: Config)
      requires ValidConfig(c)
      ensures Valid() && View() == EMPTY && config == c && Buffers() == {}
    {
      config, pending, pendingBytes := c, map[], 0;
    }

    /** Forgets one transfer and takes its size off the cached total. */
    method Drop(ticket: string)
      requires Valid() && ticket in pending
      modifies this
      ensures Valid() && pending == old(pending) - {ticket}
      ensures Entries() == old(Entries()) - {ticket}
      ensures Buffers() <= old(Buffers()) && old(pending[ticket].bytes) !in Buffers()
      ensures pendingBytes == old(pendingBytes) - old(pending[ticket].bytes.Length)
    {
      hide IsTicket, IsSafeInteger, ValidConfig, Total;
      TotalWithout(Entries(), ticket);
      ghost var rest := Entries() - {ticket};
      pendingBytes := pendingBytes - pending[ticket].bytes.Length;
      pending := pending - {ticket};
      assert Entries() == rest;
    }

    /** Drops what has expired, keeping the cached total in step. */
    method Prune(now: int)
      requires Valid()
      modifies this
      ensures Valid() && Buffers() <= old(Buffers())
      ensures View() == Pruned(old(View()), now)
    {
      hide Inv, Total, ValidConfig, Unexpired, Expired, IsTicket, IsSafeInteger;
      ghost var before := Entries();
      CacheIsTrue();
      var tickets := pending.Keys;
      assert PartlyPruned(before, before, tickets, now);
      hide PartlyPruned;
      while tickets != {}
        invariant Valid() && Buffers() <= old(Buffers())
        invariant PartlyPruned(Entries(), before, tickets, now)
        decreases |tickets|
      {
        var ticket: string :| ticket in tickets;
        PruneOne(Entries(), before, tickets, now, ticket);
        if pending[ticket].expiresAt <= now {
          Drop(ticket);
        }
        tickets := tickets - {ticket};
      }
      KeptIsUnexpired(Entries(), before, now);
      CacheIsTrue();
      TotalSplits(before, now);
    }

    lemma CacheIsTrue()
      requires Valid()
      ensures pendingBytes == Total(Entries()) <= config.maxBytes
      ensures forall t :: t in pending ==> IsTicket(t)
    {
      assert forall t :: t in pending ==> t in Entries();
    }

    /** Files the copy under its ticket and adds its size to the cached total. */
    method Keep(ticket: string, copy: array<Byte>, expiresAt: int)
      requires Valid() && IsTicket(ticket) && ticket !in pending && IsSafeInteger(expiresAt)
      requires pendingBytes + copy.Length <= config.maxBytes && copy !in Buffers()
      modifies this
      ensures Valid() && Buffers() == old(Buffers()) + {copy}
      ensures Entries() == old(Entries())[ticket := Entry(copy[..], expiresAt)]
      ensures pendingBytes == old(pendingBytes) + copy.Length
    {
      hide IsTicket, Total, IsSafeInteger, ValidConfig;
      TotalWith(Entries(), ticket, Entry(copy[..], expiresAt));
      ghost var after := Entries()[ticket := Entry(copy[..], expiresAt)];
      ghost var buffers := Buffers();
      pending := pending[ticket := PendingTransfer(copy, expiresAt)];
      pendingBytes := pendingBytes + copy.Length;
      assert Entries() == after;
      assert pending[ticket].bytes == copy;
      assert forall t :: t in old(pending) ==> pending[t] == old(pending)[t];
      assert Buffers() == buffers + {copy};
    }

    /** `create`: the caller's bytes are copied, so writing to them later changes
        nothing in the store. */
    method CreateTransfer(now: int, bytes: array<Byte>, entropy: seq<seq<Byte>>) returns (reply: Reply)
      requires Valid() && |entropy| == ATTEMPTS
      modifies this
      ensures Valid() && fresh(Buffers() - old(Buffers()))
      ensures View() == CallStore(config, old(View()), Create(now, bytes[..], entropy))
      ensures reply == CallReply(config, old(View()), Create(now, bytes[..], entropy))
    {
      hide IsTicket, Total, Inv, ValidConfig, Unexpired, Expired, FindTicket, Hex;
      Prune(now);
      CacheIsTrue();
      ghost var kept, cached := Entries(), pendingBytes;
      hide Pruned;
      assert Store(kept, cached) == Pruned(old(View()), now);
      if bytes.Length > config.maxBytes - pendingBytes {
        return TooLarge;
      }
      var expiresAt := now + config.ttlMs;
      if !IsSafeInteger(expiresAt) {
        return InvalidExpiry;
      }
      var attempt := 0;
      while attempt < ATTEMPTS
        invariant 0 <= attempt <= ATTEMPTS
        invariant Valid() && Entries() == kept && Buffers() <= old(Buffers())
        invariant pendingBytes == cached
        invariant FindTicket(kept, entropy[attempt..]) == FindTicket(kept, entropy)
      {
        var random := entropy[attempt];
        FindAt(kept, entropy, attempt);
        if |random| != TICKET_BYTES {
          return InvalidEntropy;
        }
        var ticket := Hex(random);
        HexIsTicket(random);
        if IsTicket(ticket) && ticket !in pending {
          var copy := new Byte[bytes.Length](i requires 0 <= i < bytes.Length reads bytes => bytes[i]);
          assert copy[..] == bytes[..];
          Keep(ticket, copy, expiresAt);
          return Created(ticket, bytes.Length, expiresAt);
        }
        attempt := attempt + 1;
      }
      FindNone(kept, entropy);
      return NoTicket;
    }

    /** `consume`: the transfer is gone afterwards, delivered or not. */
    method ConsumeTransfer(now: int, ticket: string) returns (reply: Reply, bytes: array?<Byte>)
      requires Valid()
      modifies this
      ensures Valid() && Buffers() <= old(Buffers())
      ensures View() == CallStore(config, old(View()), Consume(now, ticket))
      ensures reply == CallReply(config, old(View()), Consume(now, ticket))
      ensures bytes != null <==> reply.Delivered?
      ensures bytes != null ==> bytes in old(Buffers()) && bytes !in Buffers() && bytes[..] == reply.bytes
    {
      hide IsTicket, Total, Inv;
      CacheIsTrue();
      if !IsTicket(ticket) {
        assert ticket !in View().pending;
        return Nothing, null;
      }
      if ticket !in pending {
        assert ticket !in View().pending;
        return Nothing, null;
      }
      var entry := pending[ticket];
      assert View().pending[ticket] == Entry(entry.bytes[..], entry.expiresAt);
      Drop(ticket);
      if entry.expiresAt <= now {
        return Nothing, null;
      }
      return Delivered(entry.bytes[..]), entry.bytes;
    }

    method CloseStore()
      requires Valid()
      modifies this
      ensures Valid() && Buffers() == {}
      ensures View() == CallStore(config, old(View()), Close)
    {
      pending := map[];
      pendingBytes := 0;
      assert Entries() == map[];
    }
  }
}
