/** The shared-page handshake of the asynchronous scan tool: the agent (scan_tool_async/lib/hyp.c:18-65) answers the
    requests of the client (scan_tool_async/src/main.c:106-140).  Both threads run under x86's store ordering: a store
    waits in its thread's FIFO buffer, its own thread reads it there, the other thread sees it once it drains.  The
    scanned guest keeps running; its memory at time `v` gives `guest(v, a)` for the 16 bytes at address `a`. */
module ScanProtocol {

  type Chunk = nat  // the 16 bytes of a register

  const CHUNKS := 4  // 64 bytes in 16-byte registers

  datatype Store = Lock(value: nat) | Addr(addr: nat) | Size(size: nat) | Reply(k: nat, chunk: Chunk)

  /** The shared page: lock word, source address, size, and the reply at offset 12. */
  datatype Shared = Shared(lock: nat, addr: nat, size: nat, reply: seq<Chunk>)

  datatype ClientPc = Clear | PutAddr | PutSize | PutLock | Spin | Use | Quit | Done
  datatype AgentPc = Poll | LoadSize | LoadAddr | SwitchIn | Load(k: nat) | SwitchOut | Put(k: nat) | Release | Exited

  datatype State = State(
    mem: Shared, now: nat,
    cpc: ClientPc, i: nat, cbuf: seq<Store>, postedAt: nat,
    apc: AgentPc, abuf: seq<Store>, seen: nat, src: nat, xmm: seq<Chunk>, loadedAt: seq<nat>, inTarget: bool)

  datatype Event = Client | Agent | DrainClient | DrainAgent | GuestRuns

  function Drained(m: Shared, w: Store): Shared {
    match w
    case Lock(v) => m.(lock := v)
    case Addr(a) => m.(addr := a)
    case Size(n) => m.(size := n)
    case Reply(k, c) => if k < |m.reply| then m.(reply := m.reply[k := c]) else m
  }

  /** The lock word as a thread with this store buffer reads it. */
  function ReadLock(m: Shared, buf: seq<Store>): nat {
    if buf == [] then m.lock
    else if buf[|buf| - 1].Lock? then buf[|buf| - 1].value
    else ReadLock(m, buf[..|buf| - 1])
  }

  /** One instruction of `go`. */
  function ClientStep(s: State, addrs: seq<nat>): State {
    match s.cpc
    case Clear => if s.i < |addrs| then s.(cbuf := s.cbuf + [Lock(0)], cpc := PutAddr) else s.(cpc := Quit)
    case PutAddr => if s.i < |addrs| then s.(cbuf := s.cbuf + [Addr(addrs[s.i])], cpc := PutSize) else s
    case PutSize => s.(cbuf := s.cbuf + [Size(4)], cpc := PutLock)
    case PutLock => s.(cbuf := s.cbuf + [Lock(1)], cpc := Spin, postedAt := s.now)
    case Spin => if ReadLock(s.mem, s.cbuf) != 0 then s else s.(cpc := Use)
    case Use => s.(i := s.i + 1, cpc := Clear)
    case Quit => s.(cbuf := s.cbuf + [Lock(2)], cpc := Done)
    case Done => s
  }

  /** One instruction of the agent.  Loading CR3 waits until the thread's stores have drained. */
  function AgentStep(s: State, guest: (nat, nat) -> Chunk): State {
    match s.apc
    case Poll =>
      var lock := ReadLock(s.mem, s.abuf);
      if lock == 0 then s else if lock == 2 then s.(apc := Exited) else s.(apc := LoadSize)
    case LoadSize => s.(seen := s.mem.size, apc := LoadAddr)
    case LoadAddr => s.(src := s.mem.addr, apc := SwitchIn)
    case SwitchIn => if s.abuf != [] then s else s.(inTarget := true, xmm := [], loadedAt := [], apc := Load(0))
    case Load(k) =>
      s.(xmm := s.xmm + [guest(s.now, s.src + 16 * k)], loadedAt := s.loadedAt + [s.now],
         apc := if k + 1 < CHUNKS then Load(k + 1) else SwitchOut)
    case SwitchOut => if s.abuf != [] then s else s.(inTarget := false, apc := Put(0))
    case Put(k) =>
      if k < |s.xmm| then
        s.(abuf := s.abuf + [Reply(k, s.xmm[k])], apc := if k + 1 < CHUNKS then Put(k + 1) else Release)
      else s
    case Release => s.(abuf := s.abuf + [Lock(0)], apc := Poll)
    case Exited => s
  }

  function Next(s: State, e: Event, addrs: seq<nat>, guest: (nat, nat) -> Chunk): State {
    match e
    case Client => ClientStep(s, addrs)
    case Agent => AgentStep(s, guest)
    case DrainClient => if s.cbuf == [] then s else s.(mem := Drained(s.mem, s.cbuf[0]), cbuf := s.cbuf[1..])
    case DrainAgent => if s.abuf == [] then s else s.(mem := Drained(s.mem, s.abuf[0]), abuf := s.abuf[1..])
    case GuestRuns => s.(now := s.now + 1)
  }

  function Run(s: State, events: seq<Event>, addrs: seq<nat>, guest: (nat, nat) -> Chunk): State {
    if events == [] then s else Next(Run(s, events[..|events| - 1], addrs, guest), events[|events| - 1], addrs, guest)
  }

  /** The lock is 0 before either thread runs; the rest of the page is whatever it was. */
  ghost predicate Initial(s: State) {
    && s.mem.lock == 0 && |s.mem.reply| == CHUNKS
    && s.cpc == Clear && s.i == 0 && s.cbuf == [] && s.apc == Poll && s.abuf == [] && !s.inTarget
  }

  // ----- the invariant: the lock is a token

  /** The stores of a request, and those of an answer. */
  function Request(a: nat): seq<Store> { [Lock(0), Addr(a), Size(4), Lock(1)] }
  function Answer(xmm: seq<Chunk>): seq<Store>
    requires |xmm| == CHUNKS
  {
    [Reply(0, xmm[0]), Reply(1, xmm[1]), Reply(2, xmm[2]), Reply(3, xmm[3]), Lock(0)]
  }

  /** The registers hold the bytes at `src`, loaded in order after the request was posted. */
  ghost predicate Loaded(s: State, n: nat, guest: (nat, nat) -> Chunk) {
    && |s.xmm| == n == |s.loadedAt|
    && (forall k :: 0 <= k < n ==> s.xmm[k] == guest(s.loadedAt[k], s.src + 16 * k))
    && (forall k :: 0 <= k < n ==> s.postedAt <= s.loadedAt[k] <= s.now)
    && (forall j, k :: 0 <= j < k < n ==> s.loadedAt[j] <= s.loadedAt[k])
  }

  /** The reply area holds the registers. */
  ghost predicate Answered(s: State, addrs: seq<nat>, guest: (nat, nat) -> Chunk) {
    s.i < |addrs| && s.src == addrs[s.i] && Loaded(s, CHUNKS, guest) && s.mem.reply == s.xmm
  }

  function Written(pc: ClientPc): nat {
    match pc case PutAddr => 1 case PutSize => 2 case PutLock => 3 case Spin => 4 case _ => 0
  }

  /** The buffer holds the last of the first `n` stores. */
  ghost predicate Pending(buf: seq<Store>, stores: seq<Store>, n: nat) {
    |buf| <= n <= |stores| && buf == stores[n - |buf|..n]
  }

  lemma PendingGrows(buf: seq<Store>, stores: seq<Store>, n: nat)
    requires Pending(buf, stores, n) && n < |stores|
    ensures Pending(buf + [stores[n]], stores, n + 1)
  {
    assert stores[n - |buf|..n] + [stores[n]] == stores[n - |buf|..n + 1];
  }

  lemma PendingDrains(buf: seq<Store>, stores: seq<Store>, n: nat)
    requires Pending(buf, stores, n) && buf != []
    ensures Pending(buf[1..], stores, n) && |buf| <= n && buf[0] == stores[n - |buf|] && buf[|buf| - 1] == stores[n - 1]
  {
  }

  /** Of the first `n` stores of the request, the last ones are in the client's buffer and the others in the page. */
  ghost predicate RequestUnderWay(s: State, addrs: seq<nat>, n: nat) {
    && n <= 4 && s.i < |addrs| && Pending(s.cbuf, Request(addrs[s.i]), n)
    && (n == 4 ==> s.cbuf != []) && (2 <= n - |s.cbuf| ==> s.mem.addr == addrs[s.i])
  }

  /** The client holds the token: the agent polls and has no store under way; of the request's stores made so far the
      last ones are still in the client's buffer. */
  ghost predicate ClientTurn(s: State, addrs: seq<nat>, guest: (nat, nat) -> Chunk) {
    && s.apc == Poll && s.abuf == [] && !s.inTarget && s.mem.lock == 0 && s.i <= |addrs|
    && match s.cpc
       case Clear => s.cbuf == []
       case Quit => s.cbuf == [] && s.i == |addrs|
       case Use => s.cbuf == [] && Answered(s, addrs, guest)
       case Done => s.cbuf == [Lock(2)] && s.i == |addrs|
       case _ =>
         && s.i < |addrs|
         && (if s.cbuf == [] && s.cpc == Spin then Answered(s, addrs, guest)
             else RequestUnderWay(s, addrs, Written(s.cpc)))
         && (s.cpc == Spin ==> s.postedAt <= s.now)
  }

  /** How many of the answer's stores the agent has made. */
  function Replied(pc: AgentPc): nat {
    match pc case Put(k) => k case Release => 4 case _ => 0
  }

  /** The agent holds the token: the client spins with an empty buffer, and the request is in the page. */
  ghost predicate AgentTurn(s: State, addrs: seq<nat>, guest: (nat, nat) -> Chunk) {
    && s.cpc == Spin && s.cbuf == [] && s.mem.lock == 1 && s.i < |addrs| && s.mem.addr == addrs[s.i]
    && s.postedAt <= s.now && |s.mem.reply| == CHUNKS
    && match s.apc
       case Poll => !s.inTarget && (s.abuf == [] || AnswerUnderWay(s, addrs, guest, 5))
       case LoadSize => s.abuf == [] && !s.inTarget
       case LoadAddr => s.abuf == [] && !s.inTarget
       case SwitchIn => s.abuf == [] && !s.inTarget && s.src == addrs[s.i]
       case Load(k) => s.abuf == [] && s.inTarget && s.src == addrs[s.i] && k < CHUNKS && Loaded(s, k, guest)
       case SwitchOut => s.abuf == [] && s.inTarget && s.src == addrs[s.i] && Loaded(s, CHUNKS, guest)
       case Put(k) => !s.inTarget && k < CHUNKS && AnswerUnderWay(s, addrs, guest, k)
       case Release => !s.inTarget && AnswerUnderWay(s, addrs, guest, 4)
       case Exited => false
  }

  /** Of the first `n` stores of the answer, the last ones are in the agent's buffer and the others in the page. */
  ghost predicate AnswerUnderWay(s: State, addrs: seq<nat>, guest: (nat, nat) -> Chunk, n: nat) {
    && n <= 5 && |s.mem.reply| == CHUNKS && s.i < |addrs| && s.src == addrs[s.i] && Loaded(s, CHUNKS, guest)
    && Pending(s.abuf, Answer(s.xmm), n) && (n == 5 ==> s.abuf != [])
    && forall k :: 0 <= k < n - |s.abuf| && k < CHUNKS ==> s.mem.reply[k] == s.xmm[k]
  }

  /** The client has asked the agent to exit. */
  ghost predicate Over(s: State, addrs: seq<nat>) {
    && s.cpc == Done && s.cbuf == [] && s.mem.lock == 2 && s.i == |addrs|
    && s.abuf == [] && !s.inTarget && (s.apc == Poll || s.apc == Exited)
  }

  ghost predicate Inv(s: State, addrs: seq<nat>, guest: (nat, nat) -> Chunk) {
    |s.mem.reply| == CHUNKS && (ClientTurn(s, addrs, guest) || AgentTurn(s, addrs, guest) || Over(s, addrs))
  }

  lemma InitialInv(s: State, addrs: seq<nat>, guest: (nat, nat) -> Chunk)
    requires Initial(s)
    ensures Inv(s, addrs, guest)
  {
  }

  lemma RequestDrains(s: State, addrs: seq<nat>, n: nat)
    requires RequestUnderWay(s, addrs, n) && s.cbuf != [] && s.mem.lock == 0
    ensures var t := s.(mem := Drained(s.mem, s.cbuf[0]), cbuf := s.cbuf[1..]);
            && t.mem.reply == s.mem.reply
            && if n == 4 && t.cbuf == [] then t.mem.lock == 1 && t.mem.addr == addrs[s.i]
               else t.mem.lock == 0 && RequestUnderWay(t, addrs, n)
  {
    hide Pending, Request;
    RequestStores(addrs[s.i]);
    PendingDrains(s.cbuf, Request(addrs[s.i]), n);
  }

  lemma RequestGrows(s: State, t: State, addrs: seq<nat>, n: nat)
    requires RequestUnderWay(s, addrs, n) && n < 4 && t.mem == s.mem && t.i == s.i
    requires t.cbuf == s.cbuf + [Request(addrs[s.i])[n]]
    ensures RequestUnderWay(t, addrs, n + 1) && t.cbuf != []
  {
    hide Pending, Request;
    RequestStores(addrs[s.i]);
    PendingGrows(s.cbuf, Request(addrs[s.i]), n);
  }

  lemma RequestStores(a: nat)
    ensures var r := Request(a); |r| == 4 && r[0] == Lock(0) && r[1] == Addr(a) && r[2] == Size(4) && r[3] == Lock(1)
  {
  }

  lemma AnswerStores(xmm: seq<Chunk>)
    requires |xmm| == CHUNKS
    ensures var r := Answer(xmm);
            |r| == 5 && r[4] == Lock(0) && forall k :: 0 <= k < CHUNKS ==> r[k] == Reply(k, xmm[k])
  {
  }

  lemma AnswerDrains(s: State, addrs: seq<nat>, guest: (nat, nat) -> Chunk, n: nat)
    requires AnswerUnderWay(s, addrs, guest, n) && s.abuf != []
    ensures var t := s.(mem := Drained(s.mem, s.abuf[0]), abuf := s.abuf[1..]);
            && t.mem.addr == s.mem.addr && |t.mem.reply| == CHUNKS
            && if n == 5 && t.abuf == [] then t.mem.lock == 0 && Answered(t, addrs, guest)
               else t.mem.lock == s.mem.lock && AnswerUnderWay(t, addrs, guest, n)
  {
    hide Pending, Answer;
    AnswerStores(s.xmm);
    PendingDrains(s.abuf, Answer(s.xmm), n);
  }

  lemma AnswerGrows(s: State, t: State, addrs: seq<nat>, guest: (nat, nat) -> Chunk, n: nat)
    requires AnswerUnderWay(s, addrs, guest, n) && n < 5 && t.abuf == s.abuf + [Answer(s.xmm)[n]]
    requires t.mem == s.mem && t.i == s.i && t.src == s.src && t.xmm == s.xmm && t.loadedAt == s.loadedAt
    requires t.postedAt == s.postedAt && t.now == s.now
    ensures AnswerUnderWay(t, addrs, guest, n + 1)
  {
    hide Pending, Answer;
    AnswerStores(s.xmm);
    PendingGrows(s.abuf, Answer(s.xmm), n);
  }

  /** A thread reads its own pending lock store. */
  lemma OwnLock(s: State, addrs: seq<nat>, guest: (nat, nat) -> Chunk)
    ensures AnswerUnderWay(s, addrs, guest, 5) ==> ReadLock(s.mem, s.abuf) == 0
    ensures RequestUnderWay(s, addrs, 4) ==> ReadLock(s.mem, s.cbuf) == 1
    ensures s.abuf == [] ==> ReadLock(s.mem, s.abuf) == s.mem.lock
    ensures s.cbuf == [] ==> ReadLock(s.mem, s.cbuf) == s.mem.lock
  {
    hide Pending;
    if AnswerUnderWay(s, addrs, guest, 5) {
      PendingDrains(s.abuf, Answer(s.xmm), 5);
    }
    if RequestUnderWay(s, addrs, 4) {
      PendingDrains(s.cbuf, Request(addrs[s.i]), 4);
    }
  }

  lemma ClientKeeps(s: State, addrs: seq<nat>, guest: (nat, nat) -> Chunk)
    requires Inv(s, addrs, guest)
    ensures Inv(ClientStep(s, addrs), addrs, guest)
  {
    hide AnswerUnderWay, RequestUnderWay, Answered, ReadLock, Request;
    OwnLock(s, addrs, guest);
    if ClientTurn(s, addrs, guest) {
      if s.cpc == Spin {
        StillAnswered(s, ClientStep(s, addrs), addrs, guest);
      } else if s.cpc == Use {
        StillAnswered(s, s, addrs, guest);
      } else if s.i < |addrs| {
        if s.cpc == Clear { RequestStarts(s, addrs); }
        ClientWrites(s, addrs);
      }
    }
  }

  lemma RequestStarts(s: State, addrs: seq<nat>)
    requires s.cbuf == [] && s.i < |addrs|
    ensures RequestUnderWay(s, addrs, 0)
  {
  }

  lemma StillAnswered(s: State, t: State, addrs: seq<nat>, guest: (nat, nat) -> Chunk)
    requires t == s || t == s.(cpc := Use)
    ensures Answered(s, addrs, guest) ==> Answered(t, addrs, guest) && s.i < |addrs|
  {
  }

  lemma ClientWrites(s: State, addrs: seq<nat>)
    requires RequestUnderWay(s, addrs, Written(s.cpc)) && s.i < |addrs|
    requires s.cpc == Clear || s.cpc == PutAddr || s.cpc == PutSize || s.cpc == PutLock
    ensures RequestUnderWay(ClientStep(s, addrs), addrs, Written(s.cpc) + 1) && ClientStep(s, addrs).cbuf != []
  {
    hide RequestUnderWay, Request;
    RequestStores(addrs[s.i]);
    RequestGrows(s, ClientStep(s, addrs), addrs, Written(s.cpc));
  }

  lemma SameRequest(s: State, t: State, addrs: seq<nat>, n: nat)
    requires RequestUnderWay(s, addrs, n) && t.cbuf == s.cbuf && t.mem == s.mem && t.i == s.i
    ensures RequestUnderWay(t, addrs, n) && (n == 4 ==> t.cbuf != [])
  {
  }

  lemma SameAnswer(s: State, t: State, addrs: seq<nat>, guest: (nat, nat) -> Chunk, n: nat)
    requires AnswerUnderWay(s, addrs, guest, n) && t.abuf == s.abuf && t.mem == s.mem && t.i == s.i && t.src == s.src
    requires t.xmm == s.xmm && t.loadedAt == s.loadedAt && t.postedAt == s.postedAt && t.now >= s.now
    ensures AnswerUnderWay(t, addrs, guest, n)
  {
  }

  lemma AgentKeeps(s: State, addrs: seq<nat>, guest: (nat, nat) -> Chunk)
    requires Inv(s, addrs, guest)
    ensures Inv(AgentStep(s, guest), addrs, guest)
  {
    hide AnswerUnderWay, RequestUnderWay, ReadLock, Answer;
    var t := AgentStep(s, guest);
    OwnLock(s, addrs, guest);
    if AgentTurn(s, addrs, guest) && s.apc != Poll {
      AgentWorks(s, addrs, guest);
    }
  }

  lemma AgentWorks(s: State, addrs: seq<nat>, guest: (nat, nat) -> Chunk)
    requires AgentTurn(s, addrs, guest) && s.apc != Poll
    ensures AgentTurn(AgentStep(s, guest), addrs, guest)
  {
    hide AnswerUnderWay, RequestUnderWay, Answer, Loaded;
    if s.apc.Put? || s.apc == Release {
      AgentAnswers(s, addrs, guest);
    } else if s.apc.Load? {
      LoadGrows(s, AgentStep(s, guest), s.apc.k, guest);
    } else if s.apc == SwitchIn {
      NothingLoaded(AgentStep(s, guest), guest);
    } else if s.apc == SwitchOut {
      AnswerStarts(s, AgentStep(s, guest), addrs, guest);
    }
  }

  lemma NothingLoaded(s: State, guest: (nat, nat) -> Chunk)
    requires s.xmm == [] && s.loadedAt == []
    ensures Loaded(s, 0, guest)
  {
  }

  lemma AllLoaded(s: State, addrs: seq<nat>, guest: (nat, nat) -> Chunk, n: nat)
    requires AnswerUnderWay(s, addrs, guest, n)
    ensures |s.xmm| == CHUNKS
  {
  }

  lemma AnswerStarts(s: State, t: State, addrs: seq<nat>, guest: (nat, nat) -> Chunk)
    requires Loaded(s, CHUNKS, guest) && s.abuf == [] && |s.mem.reply| == CHUNKS && s.i < |addrs| && s.src == addrs[s.i]
    requires t == s.(inTarget := false, apc := Put(0))
    ensures AnswerUnderWay(t, addrs, guest, 0)
  {
  }

  lemma LoadGrows(s: State, t: State, k: nat, guest: (nat, nat) -> Chunk)
    requires Loaded(s, k, guest) && s.postedAt <= s.now == t.now && t.src == s.src && t.postedAt == s.postedAt
    requires t.xmm == s.xmm + [guest(s.now, s.src + 16 * k)] && t.loadedAt == s.loadedAt + [s.now]
    ensures Loaded(t, k + 1, guest)
  {
  }

  lemma AgentAnswers(s: State, addrs: seq<nat>, guest: (nat, nat) -> Chunk)
    requires AgentTurn(s, addrs, guest) && (s.apc.Put? || s.apc == Release)
    ensures AgentTurn(AgentStep(s, guest), addrs, guest)
  {
    hide AnswerUnderWay, RequestUnderWay, Answer, Loaded;
    AllLoaded(s, addrs, guest, Replied(s.apc));
    AnswerStores(s.xmm);
    AnswerGrows(s, AgentStep(s, guest), addrs, guest, Replied(s.apc));
  }

  lemma DrainClientKeeps(s: State, addrs: seq<nat>, guest: (nat, nat) -> Chunk)
    requires Inv(s, addrs, guest)
    ensures Inv(Next(s, DrainClient, addrs, guest), addrs, guest)
  {
    hide AnswerUnderWay, RequestUnderWay, Loaded;
    if s.cbuf != [] && s.cpc != Done {
      RequestDrains(s, addrs, Written(s.cpc));
    }
  }

  lemma DrainAgentKeeps(s: State, addrs: seq<nat>, guest: (nat, nat) -> Chunk)
    requires Inv(s, addrs, guest)
    ensures Inv(Next(s, DrainAgent, addrs, guest), addrs, guest)
  {
    hide AnswerUnderWay, RequestUnderWay;
    if s.abuf != [] {
      AnswerDrains(s, addrs, guest, if s.apc == Poll then 5 else Replied(s.apc));
    }
  }

  lemma GuestKeeps(s: State, addrs: seq<nat>, guest: (nat, nat) -> Chunk)
    requires Inv(s, addrs, guest)
    ensures Inv(s.(now := s.now + 1), addrs, guest)
  {
    hide AnswerUnderWay, RequestUnderWay;
    var t := s.(now := s.now + 1);
    forall n | AnswerUnderWay(s, addrs, guest, n)
      ensures AnswerUnderWay(t, addrs, guest, n)
    {
      SameAnswer(s, t, addrs, guest, n);
    }
    if RequestUnderWay(s, addrs, Written(s.cpc)) {
      SameRequest(s, t, addrs, Written(s.cpc));
    }
  }

  // ----- what every interleaving keeps

  lemma {:induction false} RunKeeps(s: State, events: seq<Event>, addrs: seq<nat>, guest: (nat, nat) -> Chunk)
    requires Inv(s, addrs, guest)
    ensures Inv(Run(s, events, addrs, guest), addrs, guest)
  {
    hide Inv;
    if events != [] {
      var n := |events| - 1;
      RunKeeps(s, events[..n], addrs, guest);
      StepKeeps(Run(s, events[..n], addrs, guest), events[n], addrs, guest);
    }
  }

  lemma StepKeeps(s: State, e: Event, addrs: seq<nat>, guest: (nat, nat) -> Chunk)
    requires Inv(s, addrs, guest)
    ensures Inv(Next(s, e, addrs, guest), addrs, guest)
  {
    hide Inv, ClientStep, AgentStep;
    match e
    case Client => ClientKeeps(s, addrs, guest);
    case Agent => AgentKeeps(s, addrs, guest);
    case DrainClient => DrainClientKeeps(s, addrs, guest);
    case DrainAgent => DrainAgentKeeps(s, addrs, guest);
    case GuestRuns => GuestKeeps(s, addrs, guest);
  }

  /** `v` gives, in order, times since the post at which the guest held the chunks of the reply. */
  ghost predicate HeldSince(reply: seq<Chunk>, a: nat, from: nat, to: nat, v: seq<nat>, guest: (nat, nat) -> Chunk) {
    && |reply| == |v| == CHUNKS
    && (forall k :: 0 <= k < CHUNKS ==> from <= v[k] <= to && reply[k] == guest(v[k], a + 16 * k))
    && (forall j, k :: 0 <= j < k < CHUNKS ==> v[j] <= v[k])
  }

  /** Whenever the client has left its spin, the reply it reads is the 64 bytes at the address it last posted, each 16
      of them as the guest held them at some time since. */
  lemma ReplyIsTheRequested(s0: State, events: seq<Event>, addrs: seq<nat>, guest: (nat, nat) -> Chunk)
    requires Initial(s0) && Run(s0, events, addrs, guest).cpc == Use
    ensures var s := Run(s0, events, addrs, guest);
            && s.i < |addrs| && s.cbuf == []
            && HeldSince(s.mem.reply, addrs[s.i], s.postedAt, s.now, s.loadedAt, guest)
  {
    hide Inv, Run, HeldSince;
    InitialInv(s0, addrs, guest);
    RunKeeps(s0, events, addrs, guest);
    AnsweredIsHeld(Run(s0, events, addrs, guest), addrs, guest);
  }

  lemma AnsweredIsHeld(s: State, addrs: seq<nat>, guest: (nat, nat) -> Chunk)
    requires Inv(s, addrs, guest) && s.cpc == Use
    ensures s.i < |addrs| && s.cbuf == []
    ensures HeldSince(s.mem.reply, addrs[s.i], s.postedAt, s.now, s.loadedAt, guest)
  {
    hide RequestUnderWay, AnswerUnderWay;
  }

  /** The agent's stores to the lock are made and drain only while it is 1; with the target's CR3 loaded it neither
      stores nor has a store pending; it exits only after the client's 2. */
  lemma AgentIsDisciplined(s0: State, events: seq<Event>, addrs: seq<nat>, guest: (nat, nat) -> Chunk)
    requires Initial(s0)
    ensures var s := Run(s0, events, addrs, guest);
            && (s.apc == Release || Lock(0) in s.abuf ==> s.mem.lock == 1 && s.cpc == Spin && s.cbuf == [])
            && (s.inTarget ==> s.abuf == [] && (s.apc.Load? || s.apc == SwitchOut))
            && (s.apc == Exited ==> s.mem.lock == 2 && s.cpc == Done && s.i == |addrs|)
  {
    hide AnswerUnderWay, RequestUnderWay, Loaded;
    InitialInv(s0, addrs, guest);
    RunKeeps(s0, events, addrs, guest);
  }

  // ----- progress

  function ClientRank(pc: ClientPc): nat {
    match pc
    case Clear => 10 case PutAddr => 8 case PutSize => 6 case PutLock => 4 case Spin => 2 case Use => 1 case _ => 0
  }

  function ClientLeft(s: State, addrs: seq<nat>): nat {
    if s.cpc == Done then 0 else if s.cpc == Quit then 2 else if s.i >= |addrs| then 3
    else 3 + 29 * (|addrs| - 1 - s.i) + ClientRank(s.cpc)
  }

  /** A request is posted, or about to be, and the agent has not taken it. */
  predicate Untaken(s: State, addrs: seq<nat>) {
    s.i < |addrs| && (ClientRank(s.cpc) >= 4 || (s.cpc == Spin && (s.cbuf != [] || s.mem.lock == 1)))
  }

  function AgentLeft(s: State, addrs: seq<nat>): nat {
    match s.apc
    case Poll => 1 + if s.abuf == [] && Untaken(s, addrs) then 19 else 0
    case LoadSize => 19 case LoadAddr => 18 case SwitchIn => 17
    case Load(k) => if k < CHUNKS then 16 - k else 0
    case SwitchOut => 12
    case Put(k) => if k < CHUNKS then 11 - 2 * k else 0
    case Release => 3
    case Exited => 0
  }

  function Left(s: State, addrs: seq<nat>): nat {
    ClientLeft(s, addrs) + AgentLeft(s, addrs) + |s.cbuf| + |s.abuf|
  }

  predicate Finished(s: State) { s.cpc == Done && s.apc == Exited && s.cbuf == [] && s.abuf == [] }

  /** A step of either thread that changes anything brings the end closer. */
  lemma Closer(s: State, e: Event, addrs: seq<nat>, guest: (nat, nat) -> Chunk)
    requires Inv(s, addrs, guest) && e != GuestRuns && Next(s, e, addrs, guest) != s
    ensures Left(Next(s, e, addrs, guest), addrs) < Left(s, addrs)
  {
    hide Inv, Left;
    match e
    case Client => ClientCloser(s, addrs, guest);
    case Agent => AgentCloser(s, addrs, guest);
    case _ => DrainCloser(s, e, addrs, guest);
  }

  lemma ClientCloser(s: State, addrs: seq<nat>, guest: (nat, nat) -> Chunk)
    requires Inv(s, addrs, guest) && ClientStep(s, addrs) != s
    ensures Left(ClientStep(s, addrs), addrs) < Left(s, addrs)
  {
    hide RequestUnderWay, AnswerUnderWay, Loaded;
    OwnLock(s, addrs, guest);
    assert ClientTurn(s, addrs, guest);
  }

  lemma AgentCloser(s: State, addrs: seq<nat>, guest: (nat, nat) -> Chunk)
    requires Inv(s, addrs, guest) && AgentStep(s, guest) != s
    ensures Left(AgentStep(s, guest), addrs) < Left(s, addrs)
  {
    hide RequestUnderWay, AnswerUnderWay, Loaded;
    OwnLock(s, addrs, guest);
    assert AgentTurn(s, addrs, guest) || Over(s, addrs);
  }

  lemma DrainCloser(s: State, e: Event, addrs: seq<nat>, guest: (nat, nat) -> Chunk)
    requires Inv(s, addrs, guest) && (e == DrainClient || e == DrainAgent) && Next(s, e, addrs, guest) != s
    ensures Left(Next(s, e, addrs, guest), addrs) < Left(s, addrs)
  {
    hide RequestUnderWay, AnswerUnderWay, Loaded;
    if e == DrainAgent {
      AnswerDrains(s, addrs, guest, if s.apc == Poll then 5 else Replied(s.apc));
    }
  }

  /** Until both threads have finished, one of them can move. */
  lemma NoDeadlock(s: State, addrs: seq<nat>, guest: (nat, nat) -> Chunk) returns (e: Event)
    requires Inv(s, addrs, guest)
    ensures Finished(s) || (e != GuestRuns && Next(s, e, addrs, guest) != s)
  {
    hide RequestUnderWay, AnswerUnderWay, Loaded;
    if s.cbuf != [] {
      e := DrainClient;
    } else if s.abuf != [] {
      e := DrainAgent;
    } else if AgentTurn(s, addrs, guest) {
      e := Agent;
      AgentMoves(s, addrs, guest);
    } else {
      e := if Over(s, addrs) then Agent else Client;
    }
  }

  lemma AgentMoves(s: State, addrs: seq<nat>, guest: (nat, nat) -> Chunk)
    requires AgentTurn(s, addrs, guest) && s.abuf == []
    ensures AgentStep(s, guest) != s
  {
    hide RequestUnderWay, AnswerUnderWay, Loaded;
    if s.apc.Put? {
      AllLoaded(s, addrs, guest, s.apc.k);
      assert |AgentStep(s, guest).abuf| == 1;
    } else {
      assert AgentStep(s, guest).apc != s.apc;
    }
  }

  lemma {:induction false} RunConcat(s: State, a: seq<Event>, b: seq<Event>, addrs: seq<nat>,
                                     guest: (nat, nat) -> Chunk)
    ensures Run(s, a + b, addrs, guest) == Run(Run(s, a, addrs, guest), b, addrs, guest)
  {
    hide Next;
    if b == [] {
      assert a + b == a;
    } else {
      RunConcat(s, a, b[..|b| - 1], addrs, guest);
      assert (a + b)[..|a + b| - 1] == a + b[..|b| - 1];
    }
  }

  /** From every reachable state both threads finish within `Left` effective steps, every request answered. */
  lemma {:induction false} CanFinish(s: State, addrs: seq<nat>, guest: (nat, nat) -> Chunk) returns (events: seq<Event>)
    requires Inv(s, addrs, guest)
    ensures |events| <= Left(s, addrs) && Finished(Run(s, events, addrs, guest))
    ensures Run(s, events, addrs, guest).i == |addrs|
    decreases Left(s, addrs)
  {
    if Finished(s) {
      events := [];
      return;
    }
    var e := NoDeadlock(s, addrs, guest);
    var t := Next(s, e, addrs, guest);
    hide Inv, Left, Next;
    StepKeeps(s, e, addrs, guest);
    Closer(s, e, addrs, guest);
    var rest := CanFinish(t, addrs, guest);
    events := [e] + rest;
    RunConcat(s, [e], rest, addrs, guest);
    assert Run(s, [e], addrs, guest) == t by { assert [e][..0] == []; }
  }
}
