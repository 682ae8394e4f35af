/**
 The service loop: read, claim, answer, and remember, over any number of polls and
 over either store.
 */
module BotService {
  import opened Wrappers
  import opened ClaimStore
  import opened MessageSource

  /** What sending an answer comes to; a send that raises ends the poll and leaves its claim. */
  datatype Send = Delivered | Declined | Raised

  /** A message of a poll, with what sending comes to and the claim's time and token. */
  datatype Offer = Offer(id: MessageId, send: Send, now: int, token: Token)

  type Poll = seq<Offer>

  // ---------- Over the in-memory store ----------

  /** Messages seen, messages whose claim was left behind, and the answers delivered, in order. */
  datatype Book = Book(seen: set<MessageId>, held: set<MessageId>, answers: seq<MessageId>, raised: bool)

  const EMPTY_BOOK := Book({}, {}, [], false)

  function Serve(b: Book, offer: Offer): Book {
    var id := offer.id;
    if b.raised || id in b.seen || id in b.held then b
    else match offer.send
      case Delivered => b.(seen := b.seen + {id}, answers := b.answers + [id])
      case Declined => b
      case Raised => b.(held := b.held + {id}, raised := true)
  }

  function ServeAll(b: Book, poll: Poll): Book {
    if poll == [] then b else Serve(ServeAll(b, poll[..|poll| - 1]), poll[|poll| - 1])
  }

  lemma ServeSnoc(b: Book, poll: Poll, n: nat)
    requires n < |poll|
    ensures ServeAll(b, poll[..n + 1]) == Serve(ServeAll(b, poll[..n]), poll[n])
  {
    assert poll[..n + 1][..n] == poll[..n];
  }

  /** After a send has raised, the rest of the poll is not served. */
  lemma {:induction false} RaisedEnds(b: Book, poll: Poll, n: nat)
    requires n <= |poll| && ServeAll(b, poll[..n]).raised
    ensures ServeAll(b, poll) == ServeAll(b, poll[..n])
    decreases |poll|
  {
    if n == |poll| {
      assert poll[..n] == poll;
    } else {
      assert poll[..|poll| - 1][..n] == poll[..n];
      RaisedEnds(b, poll[..|poll| - 1], n);
    }
  }

  /** The messages of a read, each with its send, time and token. */
  function PollOf(messages: seq<ChatMessage>, sends: seq<Send>, times: seq<int>, tokens: seq<Token>): Poll
    requires |messages| == |sends| == |times| == |tokens|
  {
    seq(|messages|, i requires 0 <= i < |messages| => Offer(messages[i].messageId, sends[i], times[i], tokens[i]))
  }

  class Service {
    const store: MemoryStore
    /** Every answer delivered so far. */
    ghost var answered: seq<MessageId>

    ghost function Now(): Book
      reads this, store
    {
      Book(store.messageIds, store.claimed.Keys, answered, false)
    }

    constructor ()
      ensures Now() == EMPTY_BOOK && fresh(store)
    {
      store := new MemoryStore();
      answered := [];
    }

    /** One poll of the source; None if a send raised. */
    method RunOnce(messages: seq<ChatMessage>, sends: seq<Send>, times: seq<int>, tokens: seq<Token>)
      returns (replies: Option<nat>)
      requires |messages| == |sends| == |times| == |tokens|
      modifies this, store
      ensures var after := ServeAll(old(Now()), PollOf(messages, sends, times, tokens));
        && Now() == after.(raised := false)
        && |after.answers| >= |old(answered)|
        && replies == if after.raised then None else Some(|after.answers| - |old(answered)|)
    {
      var count := 0;
      ghost var poll := PollOf(messages, sends, times, tokens);
      for n := 0 to |messages|
        invariant Now() == ServeAll(old(Now()), poll[..n]) && |answered| == |old(answered)| + count
      {
        var id := messages[n].messageId;
        ServeSnoc(old(Now()), poll, n);
        var claim := store.Claim(id, times[n], tokens[n]);
        if claim.None? {
          continue;
        }
        match sends[n] {
          case Delivered =>
            answered := answered + [id];
            var _ := store.MarkSeen(id, tokens[n]);
            count := count + 1;
          case Declined =>
            store.ReleaseClaim(id, tokens[n]);
          case Raised =>
            RaisedEnds(old(Now()), poll, n + 1);
            return None;
        }
        assert store.claimed.Keys == ServeAll(old(Now()), poll[..n + 1]).held;
      }
      assert poll[..|messages|] == poll;
      return Some(count);
    }
  }

  // ---------- Many polls ----------

  /** A new poll starts afresh after one that raised. */
  function RunPolls(polls: seq<Poll>): Book {
    if polls == [] then EMPTY_BOOK
    else ServeAll(RunPolls(polls[..|polls| - 1]).(raised := false), polls[|polls| - 1])
  }

  /** Nothing is answered twice; the answered messages are those seen; a message left claimed is not among them. */
  ghost predicate Consistent(b: Book) {
    NoDups(b.answers) && (forall id :: id in b.answers <==> id in b.seen) && b.seen !! b.held
  }

  lemma ConsistentServe(b: Book, offer: Offer)
    requires Consistent(b)
    ensures Consistent(Serve(b, offer)) && b.held <= Serve(b, offer).held
  {
  }

  lemma {:induction false} ConsistentPoll(b: Book, poll: Poll)
    requires Consistent(b)
    ensures Consistent(ServeAll(b, poll)) && b.held <= ServeAll(b, poll).held
  {
    if poll != [] {
      ConsistentPoll(b, poll[..|poll| - 1]);
      ConsistentServe(ServeAll(b, poll[..|poll| - 1]), poll[|poll| - 1]);
    }
  }

  /** Some poll offers the message with a send that succeeds. */
  ghost predicate OffersDelivered(polls: seq<Poll>, id: MessageId) {
    exists k, p :: 0 <= k < |polls| && 0 <= p < |polls[k]| && DeliveredAt(polls, k, p, id)
  }

  predicate DeliveredAt(polls: seq<Poll>, k: nat, p: nat, id: MessageId)
    requires k < |polls| && p < |polls[k]|
  {
    polls[k][p].id == id && polls[k][p].send.Delivered?
  }

  predicate DeliveredIn(poll: Poll, id: MessageId) {
    exists p :: 0 <= p < |poll| && poll[p].id == id && poll[p].send.Delivered?
  }

  predicate NoneRaises(poll: Poll) {
    forall p :: 0 <= p < |poll| ==> !poll[p].send.Raised?
  }

  /** A poll in which no send raises answers exactly what was not seen and is delivered. */
  lemma {:induction false} AnswersOfPoll(b: Book, poll: Poll, id: MessageId)
    requires NoneRaises(poll) && b.held == {} && !b.raised
    ensures var after := ServeAll(b, poll);
      !after.raised && after.held == {} && (id in after.seen <==> id in b.seen || DeliveredIn(poll, id))
  {
    if poll != [] {
      var front, last := poll[..|poll| - 1], poll[|poll| - 1];
      assert last == poll[|poll| - 1] && forall p :: 0 <= p < |front| ==> front[p] == poll[p];
      AnswersOfPoll(b, front, id);
      assert DeliveredIn(poll, id) <==> DeliveredIn(front, id) || (last.id == id && last.send.Delivered?);
    }
  }

  /** The offer is reached, and the message is claimed for it: it is neither seen nor left claimed. */
  predicate ServedAt(b: Book, poll: Poll, p: nat, id: MessageId, send: Send)
    requires p < |poll|
  {
    var before := ServeAll(b, poll[..p]);
    poll[p].id == id && poll[p].send == send && !before.raised && id !in before.seen && id !in before.held
  }

  predicate ServedIn(b: Book, poll: Poll, id: MessageId, send: Send) {
    exists p :: 0 <= p < |poll| && ServedAt(b, poll, p, id, send)
  }

  predicate Served(polls: seq<Poll>, k: nat, id: MessageId, send: Send)
    requires k < |polls|
  {
    ServedIn(RunPolls(polls[..k]).(raised := false), polls[k], id, send)
  }

  ghost predicate ServedSometime(polls: seq<Poll>, id: MessageId, send: Send) {
    exists k :: 0 <= k < |polls| && Served(polls, k, id, send)
  }

  lemma ServedSnoc(b: Book, front: Poll, last: Offer, id: MessageId, send: Send)
    ensures ServedIn(b, front + [last], id, send)
       <==> ServedIn(b, front, id, send) || ServedAt(b, front + [last], |front|, id, send)
  {
    var poll := front + [last];
    assert forall p :: 0 <= p < |front| ==> poll[p] == front[p] && poll[..p] == front[..p];
    assert forall p :: 0 <= p < |front| ==>
      (ServedAt(b, poll, p, id, send) <==> ServedAt(b, front, p, id, send));
  }

  /** A poll adds to the answered and to those left claimed exactly what it serves with that outcome. */
  lemma {:induction false} PollServes(b: Book, poll: Poll, id: MessageId)
    ensures id in ServeAll(b, poll).answers <==> id in b.answers || ServedIn(b, poll, id, Delivered)
    ensures id in ServeAll(b, poll).held <==> id in b.held || ServedIn(b, poll, id, Raised)
  {
    if poll != [] {
      var front, last := poll[..|poll| - 1], poll[|poll| - 1];
      assert poll == front + [last];
      PollServes(b, front, id);
      ServedSnoc(b, front, last, id, Delivered);
      ServedSnoc(b, front, last, id, Raised);
    }
  }

  lemma ServedSometimeSnoc(front: seq<Poll>, last: Poll, id: MessageId, send: Send)
    ensures ServedSometime(front + [last], id, send)
       <==> ServedSometime(front, id, send) || ServedIn(RunPolls(front).(raised := false), last, id, send)
  {
    var polls := front + [last];
    assert polls[..|front|] == front;
    assert forall k :: 0 <= k < |front| ==> polls[..k] == front[..k] && polls[k] == front[k];
    assert forall k :: 0 <= k < |front| ==> (Served(polls, k, id, send) <==> Served(front, k, id, send));
    assert Served(polls, |front|, id, send) <==> ServedIn(RunPolls(front).(raised := false), last, id, send);
  }

  /**
   Over any polls, whatever is declined or raises, no message is answered twice. A message is answered
   exactly when it is once served with a send that succeeds, and left claimed exactly when it
   is once served with a send that raises; what raises elsewhere does not matter.
   */
  lemma {:induction false} AnsweredOnce(polls: seq<Poll>)
    ensures Consistent(RunPolls(polls))
    ensures forall id :: id in RunPolls(polls).answers <==> ServedSometime(polls, id, Delivered)
    ensures forall id :: id in RunPolls(polls).held <==> ServedSometime(polls, id, Raised)
  {
    if polls != [] {
      var front, last := polls[..|polls| - 1], polls[|polls| - 1];
      assert polls == front + [last];
      AnsweredOnce(front);
      ConsistentPoll(RunPolls(front).(raised := false), last);
      forall id
        ensures id in RunPolls(polls).answers <==> ServedSometime(polls, id, Delivered)
        ensures id in RunPolls(polls).held <==> ServedSometime(polls, id, Raised)
      {
        PollServes(RunPolls(front).(raised := false), last, id);
        ServedSometimeSnoc(front, last, id, Delivered);
        ServedSometimeSnoc(front, last, id, Raised);
      }
    }
  }

  // ---------- The first send that settles a message ----------

  /** The sends of a message's offers that are reached and not declined, in order. */
  function SettlingIn(b: Book, poll: Poll, id: MessageId): seq<Send> {
    if poll == [] then []
    else
      var front, last := poll[..|poll| - 1], poll[|poll| - 1];
      var before := SettlingIn(b, front, id);
      if last.id == id && !last.send.Declined? && !ServeAll(b, front).raised then before + [last.send] else before
  }

  function Settling(polls: seq<Poll>, id: MessageId): seq<Send> {
    if polls == [] then []
    else
      var front, last := polls[..|polls| - 1], polls[|polls| - 1];
      Settling(front, id) + SettlingIn(RunPolls(front).(raised := false), last, id)
  }

  /** The message stands as the first of these sends left it. */
  ghost predicate StandsAs(b: Book, id: MessageId, sends: seq<Send>) {
    && (id in b.seen <==> sends != [] && sends[0].Delivered?)
    && (id in b.held <==> sends != [] && sends[0].Raised?)
    && (forall i :: 0 <= i < |sends| ==> !sends[i].Declined?)
  }

  lemma {:induction false} SettlesInPoll(b: Book, poll: Poll, id: MessageId, sends: seq<Send>)
    requires StandsAs(b, id, sends)
    ensures StandsAs(ServeAll(b, poll), id, sends + SettlingIn(b, poll, id))
  {
    if poll != [] {
      var front, last := poll[..|poll| - 1], poll[|poll| - 1];
      var before := SettlingIn(b, front, id);
      SettlesInPoll(b, front, id, sends);
      SettleOne(ServeAll(b, front), last, id, sends + before);
      assert sends + (before + [last.send]) == (sends + before) + [last.send];
    }
  }

  lemma SettleOne(b: Book, offer: Offer, id: MessageId, sends: seq<Send>)
    requires StandsAs(b, id, sends)
    ensures var more :=
        if offer.id == id && !offer.send.Declined? && !b.raised then sends + [offer.send] else sends;
      StandsAs(Serve(b, offer), id, more)
  {
  }

  /** The first send of a message that is reached and not declined decides for good whether it is answered. */
  lemma {:induction false} FirstSettles(polls: seq<Poll>, id: MessageId)
    ensures var sends := Settling(polls, id);
      && StandsAs(RunPolls(polls), id, sends)
      && (id in RunPolls(polls).answers <==> sends != [] && sends[0].Delivered?)
  {
    AnsweredOnce(polls);
    if polls != [] {
      var front, last := polls[..|polls| - 1], polls[|polls| - 1];
      FirstSettles(front, id);
      SettlesInPoll(RunPolls(front).(raised := false), last, id, Settling(front, id));
    }
  }

  /** If no send raises, the messages answered are exactly those offered at some time when the send succeeded. */
  lemma {:induction false} AnsweredIffOffered(polls: seq<Poll>)
    requires forall k :: 0 <= k < |polls| ==> NoneRaises(polls[k])
    ensures RunPolls(polls).held == {}
    ensures forall id :: id in RunPolls(polls).answers <==> OffersDelivered(polls, id)
  {
    AnsweredOnce(polls);
    if polls != [] {
      var front, last := polls[..|polls| - 1], polls[|polls| - 1];
      forall k | 0 <= k < |front| ensures NoneRaises(front[k]) {
        assert front[k] == polls[k];
      }
      AnsweredIffOffered(front);
      AnsweredOnce(front);
      AnswersOfPoll(RunPolls(front).(raised := false), last, "");
      forall id ensures id in RunPolls(polls).answers <==> OffersDelivered(polls, id) {
        AnswersOfPoll(RunPolls(front).(raised := false), last, id);
        OffersSnoc(front, last, id);
        assert polls == front + [last];
      }
    }
  }

  lemma OffersSnoc(front: seq<Poll>, last: Poll, id: MessageId)
    ensures OffersDelivered(front + [last], id) <==> OffersDelivered(front, id) || DeliveredIn(last, id)
  {
    var polls := front + [last];
    if OffersDelivered(front, id) {
      var k, p :| 0 <= k < |front| && 0 <= p < |front[k]| && DeliveredAt(front, k, p, id);
      assert DeliveredAt(polls, k, p, id);
    }
    if DeliveredIn(last, id) {
      var p :| 0 <= p < |last| && last[p].id == id && last[p].send.Delivered?;
      assert DeliveredAt(polls, |front|, p, id);
    }
    if OffersDelivered(polls, id) {
      var k, p :| 0 <= k < |polls| && 0 <= p < |polls[k]| && DeliveredAt(polls, k, p, id);
      assert k < |front| ==> DeliveredAt(front, k, p, id);
    }
  }

  /** With the in-memory store, a message whose send raised is never answered afterwards. */
  lemma {:induction false} RaisedNeverAnswered(polls: seq<Poll>, k: nat, id: MessageId)
    requires k <= |polls| && id in RunPolls(polls[..k]).held
    ensures id in RunPolls(polls).held && id !in RunPolls(polls).answers
    decreases |polls|
  {
    AnsweredOnce(polls);
    if k < |polls| {
      var front := polls[..|polls| - 1];
      assert front[..k] == polls[..k];
      RaisedNeverAnswered(front, k, id);
      AnsweredOnce(front);
      ConsistentPoll(RunPolls(front).(raised := false), polls[|polls| - 1]);
    } else {
      assert polls[..k] == polls;
    }
  }

  /** A send raises: its message is never answered, though offered again; the next one waits for the next poll. */
  lemma RaisedLosesMessage()
    ensures var first := [Offer("a", Raised, 0, "t1")] + [Offer("b", Delivered, 0, "t2")];
      var second := [Offer("a", Delivered, 900, "t3")] + [Offer("b", Delivered, 900, "t4")];
      RunPolls([first] + [second]) == Book({"b"}, {"a"}, ["b"], false)
  {
    var first := [Offer("a", Raised, 0, "t1")] + [Offer("b", Delivered, 0, "t2")];
    var second := [Offer("a", Delivered, 900, "t3")] + [Offer("b", Delivered, 900, "t4")];
    TwoOffers(EMPTY_BOOK, Offer("a", Raised, 0, "t1"), Offer("b", Delivered, 0, "t2"));
    TwoOffers(Book({}, {"a"}, [], false), Offer("a", Delivered, 900, "t3"), Offer("b", Delivered, 900, "t4"));
    assert ([first] + [second])[..1] == [first] && [first][..0] == [];
    var after := ServeAll(EMPTY_BOOK, first);
    assert after == Book({}, {"a"}, [], true);
    assert RunPolls([first]) == ServeAll(EMPTY_BOOK, first);
    assert ([first] + [second])[1] == second;
    assert ServeAll(after.(raised := false), second) == Book({"b"}, {"a"}, ["b"], false);
  }

  lemma TwoOffers(b: Book, x: Offer, y: Offer)
    ensures ServeAll(b, [x] + [y]) == Serve(Serve(b, x), y)
  {
    var poll := [x] + [y];
    ServeSnoc(b, poll, 0);
    ServeSnoc(b, poll, 1);
    assert poll[..0] == [] && poll[..2] == poll;
  }

  // ---------- Over the database store ----------

  /** The tables, the answers delivered, and whether a send has raised. */
  datatype Desk = Desk(tables: Tables, answers: seq<MessageId>, raised: bool)

  function ServeDesk(d: Desk, offer: Offer, ttl: int): Desk {
    var claim := Claim(offer.id, offer.now, offer.token);
    var claimed := After(d.tables, claim, ttl);
    if d.raised then d
    else if !Granted(d.tables, claim, ttl) then d.(tables := claimed)
    else match offer.send
      case Delivered =>
        d.(tables := After(claimed, MarkSeen(offer.id, offer.token), ttl), answers := d.answers + [offer.id])
      case Declined => d.(tables := After(claimed, Release(offer.id, offer.token), ttl))
      case Raised => d.(tables := claimed, raised := true)
  }

  /** What serving an offer leaves in the tables, case by case. */
  lemma DeskServes(d: Desk, offer: Offer, ttl: int)
    requires !d.raised && Granted(d.tables, Claim(offer.id, offer.now, offer.token), ttl)
    ensures var after := ServeDesk(d, offer, ttl);
      && (offer.send.Raised? <==> after.raised)
      && (offer.send.Delivered? ==> after.answers == d.answers + [offer.id] && offer.id in after.tables.seen)
      && (!offer.send.Delivered? ==> after.answers == d.answers && after.tables.seen == d.tables.seen)
      && (offer.send.Raised? <==> offer.id in after.tables.claims)
      && (offer.send.Raised? ==> after.tables.claims[offer.id] == Lease(offer.token, offer.now))
      && forall id :: id != offer.id ==> (id in after.tables.claims <==>
           id in d.tables.claims && d.tables.claims[id].claimedAt >= offer.now - ttl)
  {
  }

  function ServeDeskAll(d: Desk, poll: Poll, ttl: int): Desk {
    if poll == [] then d else ServeDesk(ServeDeskAll(d, poll[..|poll| - 1], ttl), poll[|poll| - 1], ttl)
  }

  function RunDesk(polls: seq<Poll>, ttl: int): Desk {
    if polls == [] then Desk(EMPTY_TABLES, [], false)
    else ServeDeskAll(RunDesk(polls[..|polls| - 1], ttl).(raised := false), polls[|polls| - 1], ttl)
  }

  lemma {:induction false} DeskRaisedEnds(d: Desk, poll: Poll, n: nat, ttl: int)
    requires n <= |poll| && ServeDeskAll(d, poll[..n], ttl).raised
    ensures ServeDeskAll(d, poll, ttl) == ServeDeskAll(d, poll[..n], ttl)
    decreases |poll|
  {
    if n == |poll| {
      assert poll[..n] == poll;
    } else {
      assert poll[..|poll| - 1][..n] == poll[..n];
      DeskRaisedEnds(d, poll[..|poll| - 1], n, ttl);
    }
  }

  lemma ServeDeskSnoc(d: Desk, poll: Poll, n: nat, ttl: int)
    requires n < |poll|
    ensures ServeDeskAll(d, poll[..n + 1], ttl) == ServeDesk(ServeDeskAll(d, poll[..n], ttl), poll[n], ttl)
  {
    assert poll[..n + 1][..n] == poll[..n];
  }

  class DatabaseService {
    const store: SqliteStore
    ghost var answered: seq<MessageId>

    ghost function Now(): Desk
      reads this, store
    {
      Desk(store.State(), answered, false)
    }

    constructor (ttl: int)
      ensures Now() == Desk(EMPTY_TABLES, [], false) && store.ttl == ttl && fresh(store)
    {
      store := new SqliteStore(ttl);
      answered := [];
    }

    /** The same loop over the other store. */
    method RunOnce(messages: seq<ChatMessage>, sends: seq<Send>, times: seq<int>, tokens: seq<Token>)
      returns (replies: Option<nat>)
      requires |messages| == |sends| == |times| == |tokens|
      modifies this, store
      ensures var after := ServeDeskAll(old(Now()), PollOf(messages, sends, times, tokens), store.ttl);
        && Now() == after.(raised := false)
        && |after.answers| >= |old(answered)|
        && replies == if after.raised then None else Some(|after.answers| - |old(answered)|)
    {
      var count := 0;
      ghost var poll := PollOf(messages, sends, times, tokens);
      for n := 0 to |messages|
        invariant Now() == ServeDeskAll(old(Now()), poll[..n], store.ttl) && |answered| == |old(answered)| + count
      {
        var id := messages[n].messageId;
        ServeDeskSnoc(old(Now()), poll, n, store.ttl);
        var claim := store.Claim(id, times[n], tokens[n]);
        if claim.None? {
          continue;
        }
        match sends[n] {
          case Delivered =>
            answered := answered + [id];
            var _ := store.MarkSeen(id, tokens[n]);
            count := count + 1;
          case Declined =>
            store.ReleaseClaim(id, tokens[n]);
          case Raised =>
            DeskRaisedEnds(old(Now()), poll, n + 1, store.ttl);
            return None;
        }
      }
      assert poll[..|messages|] == poll;
      return Some(count);
    }
  }

  /** Answered and seen are the same, and nothing seen is claimed. */
  ghost predicate Orderly(d: Desk) {
    && NoDups(d.answers) && (forall id :: id in d.answers <==> id in d.tables.seen)
    && d.tables.seen !! d.tables.claims.Keys
  }

  lemma OrderlyServe(d: Desk, offer: Offer, ttl: int)
    requires Orderly(d)
    ensures Orderly(ServeDesk(d, offer, ttl))
  {
  }

  lemma {:induction false} OrderlyPoll(d: Desk, poll: Poll, ttl: int)
    requires Orderly(d)
    ensures Orderly(ServeDeskAll(d, poll, ttl))
  {
    if poll != [] {
      OrderlyPoll(d, poll[..|poll| - 1], ttl);
      OrderlyServe(ServeDeskAll(d, poll[..|poll| - 1], ttl), poll[|poll| - 1], ttl);
    }
  }

  /** Over the database store nothing is answered twice either, though claims left by a send that raised expire. */
  lemma {:induction false} DatabaseAnswersOnce(polls: seq<Poll>, ttl: int)
    ensures Orderly(RunDesk(polls, ttl))
  {
    if polls != [] {
      DatabaseAnswersOnce(polls[..|polls| - 1], ttl);
      OrderlyPoll(RunDesk(polls[..|polls| - 1], ttl).(raised := false), polls[|polls| - 1], ttl);
    }
  }

  /** The two stores hold the same, and no claim is open. */
  ghost predicate Alike(d: Desk, b: Book) {
    && d.tables.seen == b.seen && d.answers == b.answers && d.raised == b.raised
    && d.tables.claims == map[] && b.held == {}
  }

  lemma AlikeServe(d: Desk, b: Book, offer: Offer, ttl: int)
    requires Alike(d, b) && !offer.send.Raised?
    ensures Alike(ServeDesk(d, offer, ttl), Serve(b, offer))
  {
    assert Purged(map[], offer.now, ttl) == map[];
  }

  lemma {:induction false} AlikePoll(d: Desk, b: Book, poll: Poll, ttl: int)
    requires Alike(d, b) && NoneRaises(poll)
    ensures Alike(ServeDeskAll(d, poll, ttl), ServeAll(b, poll))
  {
    if poll != [] {
      var front := poll[..|poll| - 1];
      assert forall p :: 0 <= p < |front| ==> front[p] == poll[p];
      AlikePoll(d, b, front, ttl);
      AlikeServe(ServeDeskAll(d, front, ttl), ServeAll(b, front), poll[|poll| - 1], ttl);
    }
  }

  /** If no send raises, one service answers the same over either store, whatever the clock does. */
  lemma {:induction false} DatabaseLikeMemory(polls: seq<Poll>, ttl: int)
    requires forall k :: 0 <= k < |polls| ==> NoneRaises(polls[k])
    ensures Alike(RunDesk(polls, ttl), RunPolls(polls))
  {
    if polls != [] {
      var front, last := polls[..|polls| - 1], polls[|polls| - 1];
      forall k | 0 <= k < |front| ensures NoneRaises(front[k]) {
        assert front[k] == polls[k];
      }
      DatabaseLikeMemory(front, ttl);
      AlikePoll(RunDesk(front, ttl).(raised := false), RunPolls(front).(raised := false), last, ttl);
    }
  }

  // ---------- From page to answer ----------

  /** The page at successive polls: rows are only appended. */
  ghost predicate Growing(pages: seq<seq<DomRow>>) {
    forall k, m :: 0 <= k <= m < |pages| ==> pages[k] <= pages[m]
  }

  /** One poll for every page, offering what the page does, every send succeeding. */
  ghost predicate PollsFor(group: string, pages: seq<seq<DomRow>>, polls: seq<Poll>) {
    |polls| == |pages| && forall k :: 0 <= k < |pages| ==> PollFor(group, pages[k], polls[k])
  }

  predicate PollFor(group: string, page: seq<DomRow>, poll: Poll) {
    var ids := Offered(group, page);
    |poll| == |ids| && forall p :: 0 <= p < |ids| ==> poll[p].id == ids[p] && poll[p].send.Delivered?
  }

  /** What the loop serves of a page read with sends that succeed is what the page offers, in order. */
  lemma PollOfOffers(
    group: string, page: seq<DomRow>, messages: seq<ChatMessage>, sends: seq<Send>, times: seq<int>, tokens: seq<Token>)
    requires messages == MessagesOf(group, ScriptRows(page), |ScriptRows(page)|)
    requires |messages| == |sends| == |times| == |tokens| && forall i :: 0 <= i < |sends| ==> sends[i].Delivered?
    ensures PollFor(group, page, PollOf(messages, sends, times, tokens))
    ensures var poll := PollOf(messages, sends, times, tokens);
      forall i :: 0 <= i < |messages| ==> poll[i].now == times[i] && poll[i].token == tokens[i]
  {
  }

  lemma {:induction false} OccursOnce(s: seq<MessageId>, id: MessageId)
    requires NoDups(s)
    ensures multiset(s)[id] == if id in s then 1 else 0
  {
    if s != [] {
      var front, last := s[..|s| - 1], s[|s| - 1];
      assert s == front + [last];
      OccursOnce(front, id);
    }
  }

  lemma DeliveredIffOffered(group: string, page: seq<DomRow>, poll: Poll, id: MessageId)
    requires PollFor(group, page, poll)
    ensures DeliveredIn(poll, id) <==> id in Offered(group, page)
    ensures NoneRaises(poll)
  {
    var ids := Offered(group, page);
    if id in ids {
      var p :| 0 <= p < |ids| && ids[p] == id;
      assert poll[p].id == id && poll[p].send.Delivered?;
    }
  }

  lemma OfferedSomewhere(group: string, pages: seq<seq<DomRow>>, polls: seq<Poll>, id: MessageId)
    requires PollsFor(group, pages, polls)
    ensures OffersDelivered(polls, id) <==> exists k :: 0 <= k < |pages| && id in Offered(group, pages[k])
  {
    forall k | 0 <= k < |pages| ensures DeliveredIn(polls[k], id) <==> id in Offered(group, pages[k]) {
      DeliveredIffOffered(group, pages[k], polls[k], id);
    }
    if exists k :: 0 <= k < |pages| && id in Offered(group, pages[k]) {
      var k :| 0 <= k < |pages| && id in Offered(group, pages[k]);
      var p :| 0 <= p < |polls[k]| && polls[k][p].id == id && polls[k][p].send.Delivered?;
      assert DeliveredAt(polls, k, p, id);
    }
    if OffersDelivered(polls, id) {
      var k, p :| 0 <= k < |polls| && 0 <= p < |polls[k]| && DeliveredAt(polls, k, p, id);
      assert DeliveredIn(polls[k], id);
    }
  }

  predicate InWindow(page: seq<DomRow>, i: nat) {
    |page| - 50 <= i < |page|
  }

  /**
   A page that only grows, sends that succeed: every row without a platform id that
   is not the bot's own, is not blank, and is in the window of some poll gets exactly
   one answer, over either store; different rows have different ids.
   */
  lemma {:induction false} ExactlyOneAnswer(
    group: string, pages: seq<seq<DomRow>>, polls: seq<Poll>, ttl: int, i: nat)
    requires Growing(pages) && pages != [] && i < |pages[|pages| - 1]| && Unnumbered(pages[|pages| - 1][i])
    requires PollsFor(group, pages, polls)
    ensures var last := pages[|pages| - 1];
      && multiset(RunPolls(polls).answers)[RowId(group, last, i)]
         == (if exists k :: 0 <= k < |pages| && InWindow(pages[k], i) then 1 else 0)
      && forall j :: 0 <= j < |last| && j != i ==> RowId(group, last, j) != RowId(group, last, i)
    ensures RunDesk(polls, ttl).answers == RunPolls(polls).answers
  {
    var last, id := pages[|pages| - 1], RowId(group, pages[|pages| - 1], i);
    forall k | 0 <= k < |pages| ensures NoneRaises(polls[k]) {
      DeliveredIffOffered(group, pages[k], polls[k], id);
    }
    AnsweredOnce(polls);
    AnsweredIffOffered(polls);
    DatabaseLikeMemory(polls, ttl);
    OccursOnce(RunPolls(polls).answers, id);
    forall j | 0 <= j < |last| && j != i ensures RowId(group, last, j) != id {
      RowIdsDistinct(group, last, last, j, i);
    }
    OfferedSomewhere(group, pages, polls, id);
    forall k | 0 <= k < |pages| ensures id in Offered(group, pages[k]) <==> InWindow(pages[k], i) {
      OfferedIffInWindow(group, pages[k], last, i);
    }
  }
}
