/** Subscribing, publishing and dropping slow or closed subscribers. */
module PubSub {
  import opened Bytes
  import opened Frames
  import opened Subscriptions
  import opened Messages
  import Patterns
  import Printer

  const QUEUE_CAPACITY: nat := 64
  const QUEUE_BYTES: nat := 16 * 1024 * 1024
  const MAX_MESSAGE_BYTES: nat := MAX_FRAME_BYTES + 1024 * 1024

  // Writers.

  /** A connection's outgoing queue: what was queued, and the slots and byte permits left. */
  datatype Writer = Writer(closed: bool, queue: seq<bytes>, slots: nat, permits: nat)

  function PermitsFor(payload: bytes): nat {
    if |payload| == 0 then 1 else if |payload| > QUEUE_BYTES then QUEUE_BYTES else |payload|
  }

  predicate CanQueue(w: Writer, payload: bytes) {
    !w.closed && |payload| <= MAX_MESSAGE_BYTES && PermitsFor(payload) <= w.permits && w.slots > 0
  }

  function Queued(w: Writer, payload: bytes): Writer
    requires CanQueue(w, payload)
  {
    w.(queue := w.queue + [payload], slots := w.slots - 1, permits := w.permits - PermitsFor(payload))
  }

  /** Everyone a publication is for. */
  ghost predicate IsTarget(flat: Flat, channel: bytes, shard: bool, d: Delivery) {
    var key := match d.pattern
      case None => Key(if shard then ShardChannel else Channel, channel, d.session)
      case Some(pattern) => Key(Pattern, pattern, d.session);
    && key in flat && flat[key] == d.subscriber
    && (d.pattern.Some? ==> !shard && Patterns.PatternMatches(d.pattern.value, channel))
  }

  /** What a writer is sent, in order. */
  ghost function SentTo(writer: nat, sent: seq<Delivery>, channel: bytes, message: bytes, shard: bool): seq<bytes> {
    if sent == [] then []
    else
      var last := sent[|sent| - 1];
      SentTo(writer, sent[..|sent| - 1], channel, message, shard)
      + (if last.subscriber.writer == writer then [Payload(last, channel, message, shard)] else [])
  }

  lemma SentToNext(writer: nat, sent: seq<Delivery>, d: Delivery, channel: bytes, message: bytes, shard: bool)
    ensures SentTo(writer, sent + [d], channel, message, shard)
         == SentTo(writer, sent, channel, message, shard)
            + (if d.subscriber.writer == writer then [Payload(d, channel, message, shard)] else [])
  {
    assert (sent + [d])[..|sent|] == sent;
  }

  /** The deliveries of one writer, in order. */
  ghost function DeliveriesTo(writer: nat, sent: seq<Delivery>): seq<Delivery> {
    if sent == [] then []
    else
      var last := sent[|sent| - 1];
      DeliveriesTo(writer, sent[..|sent| - 1]) + if last.subscriber.writer == writer then [last] else []
  }

  /** Behind what a queue held comes one message per delivery, and the client reads it as such. */
  ghost predicate Received(before: seq<bytes>, after: seq<bytes>, ds: seq<Delivery>,
                           channel: bytes, message: bytes, shard: bool)
  {
    && |after| == |before| + |ds| && after[..|before|] == before
    && forall i :: 0 <= i < |ds| ==> Reads(after[|before| + i], ds[i], channel, message, shard)
  }

  lemma {:induction false} SentIsRead(writer: nat, sent: seq<Delivery>, channel: bytes, message: bytes, shard: bool)
    ensures var got, ds := SentTo(writer, sent, channel, message, shard), DeliveriesTo(writer, sent);
            |got| == |ds| && forall i :: 0 <= i < |ds| ==> Reads(got[i], ds[i], channel, message, shard)
    decreases |sent|
  {
    hide Reads;
    hide Payload;
    if sent != [] {
      SentIsRead(writer, sent[..|sent| - 1], channel, message, shard);
      PayloadReads(sent[|sent| - 1], channel, message, shard);
    }
  }

  lemma AccountsAreReceived(pub: Publication, done: Progress, id: nat, now: Writer)
    requires id in pub.writers && Accounts(pub, done, id, now)
    ensures Received(pub.writers[id].queue, now.queue, DeliveriesTo(id, done.sent), pub.channel, pub.message, pub.shard)
  {
    hide Reads;
    hide SentTo;
    hide DeliveriesTo;
    hide IsFailure;
    SentIsRead(id, done.sent, pub.channel, pub.message, pub.shard);
    var before, got := pub.writers[id].queue, SentTo(id, done.sent, pub.channel, pub.message, pub.shard);
    assert forall i :: 0 <= i < |got| ==> now.queue[|before| + i] == got[i];
  }

  ghost function TotalPermits(payloads: seq<bytes>): nat {
    if payloads == [] then 0
    else TotalPermits(payloads[..|payloads| - 1]) + PermitsFor(payloads[|payloads| - 1])
  }

  lemma TotalPermitsNext(payloads: seq<bytes>, last: bytes)
    ensures TotalPermits(payloads + [last]) == TotalPermits(payloads) + PermitsFor(last)
  {
    assert (payloads + [last])[..|payloads|] == payloads;
  }

  /** An open writer's queue against the slots and permits it began with. */
  ghost predicate Outstanding(w: Writer) {
    w.slots + |w.queue| == QUEUE_CAPACITY && w.permits + TotalPermits(w.queue) == QUEUE_BYTES
  }

  ghost function TotalBytes(payloads: seq<bytes>): nat {
    if payloads == [] then 0 else TotalBytes(payloads[..|payloads| - 1]) + |payloads[|payloads| - 1]|
  }

  lemma {:induction false} PermitsCoverBytes(payloads: seq<bytes>)
    requires TotalPermits(payloads) <= QUEUE_BYTES
    ensures |payloads| <= TotalPermits(payloads)
    ensures |payloads| >= 2 ==> TotalBytes(payloads) <= TotalPermits(payloads)
    ensures |payloads| == 1 || TotalBytes(payloads) <= QUEUE_BYTES
    decreases |payloads|
  {
    if payloads != [] {
      var front, last := payloads[..|payloads| - 1], payloads[|payloads| - 1];
      PermitsCoverBytes(front);
      if |front| == 1 {
        assert front[..0] == [];
        assert TotalBytes(front) == |front[0]| && TotalPermits(front) == PermitsFor(front[0]);
      } else if front == [] {
        assert TotalBytes(payloads) == |last|;
      }
    }
  }

  /** At most 64 messages wait on a connection, and never more than 16 MiB unless it is a single one. */
  lemma QueueIsBounded(w: Writer)
    requires Outstanding(w)
    ensures |w.queue| <= 64
    ensures |w.queue| != 1 ==> TotalBytes(w.queue) <= 16 * 1024 * 1024
  {
    PermitsCoverBytes(w.queue);
  }

  lemma {:induction false} TotalPermitsSplit(xs: seq<bytes>, ys: seq<bytes>)
    ensures TotalPermits(xs + ys) == TotalPermits(xs) + TotalPermits(ys)
    decreases |ys|
  {
    if ys == [] {
      assert xs + ys == xs;
    } else {
      assert xs + ys == (xs + ys[..|ys| - 1]) + [ys[|ys| - 1]];
      TotalPermitsNext(xs + ys[..|ys| - 1], ys[|ys| - 1]);
      TotalPermitsSplit(xs, ys[..|ys| - 1]);
    }
  }

  /** A publication keeps every queue within its bounds. */
  lemma PublishingKeepsBounds(pub: Publication, done: Progress, id: nat, now: Writer)
    requires id in pub.writers && Outstanding(pub.writers[id]) && Accounts(pub, done, id, now)
    ensures Outstanding(now)
  {
    hide SentTo;
    hide TotalPermits;
    hide IsFailure;
    TotalPermitsSplit(pub.writers[id].queue, SentTo(id, done.sent, pub.channel, pub.message, pub.shard));
  }

  /** A publication: where it goes, what it says, and the state it found. */
  datatype Publication = Publication(channel: bytes, message: bytes, shard: bool,
                                     flat: Flat, writers: map<nat, Writer>, monitors: set<nat>)

  /** How far a publication got: deliveries dealt with, the ones queued in order, sessions dropped. */
  datatype Progress = Progress(handled: set<Delivery>, sent: seq<Delivery>, gone: set<nat>)

  ghost predicate IsFailure(pub: Publication, done: Progress, id: nat, now: Writer, d: Delivery) {
    && d in done.handled && d !in done.sent && d.subscriber.writer == id
    && !CanQueue(now.(closed := false), Payload(d, pub.channel, pub.message, pub.shard))
  }

  /** A writer holds what it held plus what it was sent, is charged for it, and is newly closed only
      over a delivery it had no room for. */
  ghost predicate Accounts(pub: Publication, done: Progress, id: nat, now: Writer)
    requires id in pub.writers
  {
    var before := pub.writers[id];
    var got := SentTo(id, done.sent, pub.channel, pub.message, pub.shard);
    && now.queue == before.queue + got
    && now.slots + |got| == before.slots
    && now.permits + TotalPermits(got) == before.permits
    && (before.closed ==> now.closed)
    && (now.closed && !before.closed ==> exists d :: IsFailure(pub, done, id, now, d))
  }

  /** Every delivery so far was queued once, or its session was dropped and its writer is closed. */
  ghost predicate Fair(done: Progress, writers: map<nat, Writer>) {
    && Distinct(done.sent)
    && (forall d :: d in done.sent ==> d in done.handled)
    && (forall d :: d in done.handled ==>
          && d.subscriber.writer in writers
          && (d in done.sent || (d.session in done.gone && writers[d.subscriber.writer].closed)))
    && (forall s :: s in done.gone ==> exists d :: d in done.handled && d !in done.sent && d.session == s)
  }

  ghost predicate Distinct(ds: seq<Delivery>) {
    forall i, j :: 0 <= i < j < |ds| ==> ds[i] != ds[j]
  }

  function Sent(done: Progress, d: Delivery): Progress {
    Progress(done.handled + {d}, done.sent + [d], done.gone)
  }

  function Refused(done: Progress, d: Delivery): Progress {
    Progress(done.handled + {d}, done.sent, done.gone + {d.session})
  }

  lemma StillFailed(pub: Publication, done: Progress, next: Progress, id: nat, now: Writer)
    requires exists d :: IsFailure(pub, done, id, now, d)
    requires done.handled <= next.handled && (forall d :: d in done.handled && d in next.sent ==> d in done.sent)
    ensures exists d :: IsFailure(pub, next, id, now, d)
  {
    var d :| IsFailure(pub, done, id, now, d);
    assert IsFailure(pub, next, id, now, d);
  }

  lemma AccountsAfterQueuing(pub: Publication, done: Progress, id: nat, now: Writer, d: Delivery)
    requires id in pub.writers && Accounts(pub, done, id, now) && d !in done.handled
    requires id == d.subscriber.writer ==> CanQueue(now, Payload(d, pub.channel, pub.message, pub.shard))
    ensures Accounts(pub, Sent(done, d), id,
                     if id != d.subscriber.writer then now
                     else Queued(now, Payload(d, pub.channel, pub.message, pub.shard)))
  {
    hide Payload;
    hide IsFailure;
    hide SentTo;
    hide TotalPermits;
    hide PermitsFor;
    var payload := Payload(d, pub.channel, pub.message, pub.shard);
    var got := SentTo(id, done.sent, pub.channel, pub.message, pub.shard);
    SentToNext(id, done.sent, d, pub.channel, pub.message, pub.shard);
    if id == d.subscriber.writer {
      TotalPermitsNext(got, payload);
      Assoc(pub.writers[id].queue, got, [payload]);
    } else {
      assert got + [] == got;
      if now.closed && !pub.writers[id].closed {
        StillFailed(pub, done, Sent(done, d), id, now);
      }
    }
  }

  lemma AccountsAfterRefusal(pub: Publication, done: Progress, id: nat, now: Writer, d: Delivery)
    requires id in pub.writers && Accounts(pub, done, id, now) && d !in done.handled
    requires forall x :: x in done.sent ==> x in done.handled
    requires id == d.subscriber.writer ==> !CanQueue(now, Payload(d, pub.channel, pub.message, pub.shard))
    ensures Accounts(pub, Refused(done, d), id, if id == d.subscriber.writer then now.(closed := true) else now)
  {
    hide Payload;
    if now.closed && !pub.writers[id].closed {
      StillFailed(pub, done, Refused(done, d), id, now);
    } else if id == d.subscriber.writer && !now.closed {
      assert IsFailure(pub, Refused(done, d), id, now.(closed := true), d);
    }
  }

  lemma FairAfterQueuing(done: Progress, writers: map<nat, Writer>, d: Delivery, payload: bytes)
    requires Fair(done, writers) && d !in done.handled && d.subscriber.writer in writers
    requires CanQueue(writers[d.subscriber.writer], payload)
    ensures Fair(Sent(done, d), writers[d.subscriber.writer := Queued(writers[d.subscriber.writer], payload)])
  {
    forall s | s in done.gone
      ensures exists x :: x in Sent(done, d).handled && x !in Sent(done, d).sent && x.session == s
    {
      var x :| x in done.handled && x !in done.sent && x.session == s;
      assert x in Sent(done, d).handled && x !in Sent(done, d).sent;
    }
  }

  lemma FairAfterRefusal(done: Progress, writers: map<nat, Writer>, d: Delivery)
    requires Fair(done, writers) && d !in done.handled && d.subscriber.writer in writers
    ensures Fair(Refused(done, d), writers[d.subscriber.writer := writers[d.subscriber.writer].(closed := true)])
  {
    forall s | s in done.gone + {d.session}
      ensures exists x :: x in Refused(done, d).handled && x !in done.sent && x.session == s
    {
      if s == d.session {
        assert d in Refused(done, d).handled && d !in done.sent;
      } else {
        var x :| x in done.handled && x !in done.sent && x.session == s;
        assert x in Refused(done, d).handled;
      }
    }
  }

  predicate OnList(list: map<nat, Subscriber>, pattern: Option<bytes>, d: Delivery) {
    d.pattern == pattern && d.session in list && list[d.session] == d.subscriber
  }

  ghost predicate InSome(groups: seq<seq<Delivery>>, d: Delivery) {
    exists g :: g in groups && d in g
  }

  lemma NotEarlier(names: seq<bytes>, groups: seq<seq<Delivery>>, i: nat, d: Delivery)
    requires i < |groups| == |names| && d in groups[i]
    requires forall i, j :: 0 <= i < j < |names| ==> names[i] != names[j]
    requires forall i, d :: 0 <= i < |groups| && d in groups[i] ==> d.pattern == Some(names[i])
    ensures !InSome(groups[..i], d) && d.pattern.Some?
  {
  }

  lemma NoneDistinct()
    ensures Distinct([])
  {
  }

  /** The list of a channel holds exactly the direct targets. */
  lemma ListIsTargets(index: Index, channel: bytes, shard: bool, flat: Flat)
    requires Indexes(index, if shard then ShardChannel else Channel, flat)
    ensures forall d: Delivery :: (d.pattern.None? && IsTarget(flat, channel, shard, d))
                   <==> channel in index && OnList(index[channel], None, d)
  {
    hide Patterns.PatternMatches;
    forall d: Delivery
      ensures (d.pattern.None? && IsTarget(flat, channel, shard, d))
         <==> channel in index && OnList(index[channel], None, d)
    {
      assert Key(if shard then ShardChannel else Channel, channel, d.session) in flat
        <==> channel in index && d.session in index[channel];
    }
  }

  lemma ListHasPattern(index: Index, names: seq<bytes>, groups: seq<seq<Delivery>>)
    requires |groups| == |names| && (forall n :: n in names ==> n in index)
    requires forall i, d :: 0 <= i < |groups| ==> (d in groups[i] <==> OnList(index[names[i]], Some(names[i]), d))
    ensures forall i, d :: 0 <= i < |groups| && d in groups[i] ==> d.pattern == Some(names[i])
  {
  }

  /** The lists of the matching patterns hold exactly the targets reached through a pattern. */
  lemma GroupsAreTargets(index: Index, names: seq<bytes>, groups: seq<seq<Delivery>>, channel: bytes, flat: Flat)
    requires Indexes(index, Pattern, flat) && |groups| == |names|
    requires forall n :: n in names <==> n in index && Patterns.PatternMatches(n, channel)
    requires forall i, d :: 0 <= i < |groups| ==> (d in groups[i] <==> OnList(index[names[i]], Some(names[i]), d))
    ensures forall d :: InSome(groups, d) <==> d.pattern.Some? && IsTarget(flat, channel, false, d)
  {
    hide Patterns.PatternMatches;
    forall d: Delivery
      ensures InSome(groups, d) <==> d.pattern.Some? && IsTarget(flat, channel, false, d)
    {
      if InSome(groups, d) {
        var g :| g in groups && d in g;
        var i :| 0 <= i < |groups| && groups[i] == g;
        assert Key(Pattern, names[i], d.session) in flat;
      }
      if d.pattern.Some? && IsTarget(flat, channel, false, d) {
        var name := d.pattern.value;
        assert Key(Pattern, name, d.session) in flat;
        var i :| 0 <= i < |names| && names[i] == name;
        assert d in groups[i];
      }
    }
  }

  lemma NoShardPatterns(flat: Flat, channel: bytes)
    ensures forall d :: InSome([], d) <==> d.pattern.Some? && IsTarget(flat, channel, true, d)
  {
  }

  lemma TargetHasWriter(flat: Flat, writers: map<nat, Writer>, channel: bytes, shard: bool, d: Delivery)
    requires IsTarget(flat, channel, shard, d) && (forall k :: k in flat ==> flat[k].writer in writers)
    ensures d.subscriber.writer in writers
  {
  }

  lemma FairGives(done: Progress, writers: map<nat, Writer>)
    requires Fair(done, writers)
    ensures forall x :: x in done.sent ==> x in done.handled
  {
  }

  lemma PayloadIs(d: Delivery, channel: bytes, message: bytes, shard: bool, payload: bytes)
    requires var p := d.subscriber.protocol;
             payload == Printer.Encode(p, MessageFrame(FieldsOf(d, channel, shard), message, p))
    ensures payload == Payload(d, channel, message, shard)
  {
  }

  datatype SubscribeReply = WrongArguments | LimitReached | Acknowledged(counts: seq<nat>)

  class SessionManager {
    var channels: Index
    var patterns: Index
    var shardChannels: Index
    var subscriptions: map<nat, Record>
    var monitors: set<nat>
    var writers: map<nat, Writer>
    ghost var flat: Flat

    ghost predicate Valid()
      reads this
    {
      && Indexes(channels, Channel, flat)
      && Indexes(patterns, Pattern, flat)
      && Indexes(shardChannels, ShardChannel, flat)
      && Records(subscriptions, flat)
      && (forall k :: k in flat ==> flat[k].writer in writers)
    }

    constructor ()
      ensures Valid() && flat == map[] && monitors == {} && writers == map[]
    {
      channels, patterns, shardChannels := map[], map[], map[];
      subscriptions, monitors, writers, flat := map[], {}, map[], map[];
    }

    /** A connection gets its outgoing queue. */
    method Connect(id: nat)
      requires Valid() && id !in writers
      modifies this`writers
      ensures Valid() && writers == old(writers)[id := Writer(false, [], QUEUE_CAPACITY, QUEUE_BYTES)]
      ensures Outstanding(writers[id])
    {
      writers := writers[id := Writer(false, [], QUEUE_CAPACITY, QUEUE_BYTES)];
    }

    /** The three registration operations, by kind. */
    method Register(kind: Kind, name: bytes, session: nat, subscriber: Subscriber)
      requires Valid() && subscriber.writer in writers
      modifies this
      ensures Valid() && monitors == old(monitors) && writers == old(writers)
      ensures flat == old(flat)[Key(kind, name, session) := subscriber]
    {
      hide Indexes;
      hide Records;
      hide Insert;
      var key := Key(kind, name, session);
      InsertKeepsRecords(subscriptions, flat, key, subscriber);
      var record := RecordOf(subscriptions, session);
      subscriptions := subscriptions[session := WithNames(record, kind, NamesOf(record, kind) + {name})];
      InsertKeepsIndices(channels, patterns, shardChannels, flat, key, subscriber);
      match kind {
        case Channel => channels := Insert(channels, name, session, subscriber);
        case Pattern => patterns := Insert(patterns, name, session, subscriber);
        case ShardChannel => shardChannels := Insert(shardChannels, name, session, subscriber);
      }
      flat := flat[key := subscriber];
    }

    /** The three removal operations, by kind: an emptied list or record goes too. */
    method Unregister(kind: Kind, name: bytes, session: nat)
      requires Valid()
      modifies this
      ensures Valid() && monitors == old(monitors) && writers == old(writers)
      ensures flat == old(flat) - {Key(kind, name, session)}
    {
      hide Indexes;
      hide Records;
      hide Remove;
      var key := Key(kind, name, session);
      RemoveKeepsIndices(channels, patterns, shardChannels, flat, key);
      match kind {
        case Channel => channels := Remove(channels, name, session);
        case Pattern => patterns := Remove(patterns, name, session);
        case ShardChannel => shardChannels := Remove(shardChannels, name, session);
      }
      UnlistedKeepsRecords(subscriptions, flat, key);
      subscriptions := Unlisted(subscriptions, key);
      flat := flat - {key};
    }

    /** The subscribe commands: refused as a whole when the new names would pass the limit, and then
        nothing changes; otherwise each name is added and acknowledged with the count so far. */
    method Subscribe(kind: Kind, names: seq<bytes>, session: nat, subscriber: Subscriber, limit: nat)
      returns (reply: SubscribeReply)
      requires Valid() && subscriber.writer in writers
      modifies this
      ensures Valid() && monitors == old(monitors) && writers == old(writers)
      ensures reply == WrongArguments <==> names == []
      ensures reply == LimitReached <==>
        names != [] && Count(old(flat), session) + |(set n | n in names) - Names(old(flat), session, kind)| > limit
      ensures names != [] ==> flat == Enact(old(flat), limit, Act.Subscribe(kind, names, session, subscriber))
      ensures !reply.Acknowledged? ==> flat == old(flat)
      ensures reply.Acknowledged? ==>
        && flat == Subscribed(old(flat), kind, names, session, subscriber) && Count(flat, session) <= limit
        && |reply.counts| == |names|
        && forall i :: 0 <= i < |names| ==>
             reply.counts[i] ==
             AckCount(Subscribed(old(flat), kind, names[..i + 1], session, subscriber), session, kind)
    {
      hide Indexes;
      hide Records;
      hide Subscribed;
      hide AckCount;
      hide Names;
      if names == [] {
        return WrongArguments;
      }
      CountAfterSubscribing(flat, kind, names, session, subscriber);
      var current := SubscriptionCount(session);
      var additional := AdditionalSubscriptionCount(session, names, kind);
      if current + additional > limit {
        return LimitReached;
      }
      var counts := RegisterAll(kind, names, session, subscriber);
      return Acknowledged(counts);
    }

    /** Adds the names in order; the answer has the count after each. */
    method RegisterAll(kind: Kind, names: seq<bytes>, session: nat, subscriber: Subscriber) returns (counts: seq<nat>)
      requires Valid() && subscriber.writer in writers
      modifies this
      ensures Valid() && monitors == old(monitors) && writers == old(writers)
      ensures flat == Subscribed(old(flat), kind, names, session, subscriber)
      ensures |counts| == |names|
      ensures forall i :: 0 <= i < |names| ==>
        counts[i] == AckCount(Subscribed(old(flat), kind, names[..i + 1], session, subscriber), session, kind)
    {
      hide Indexes;
      hide Records;
      hide AckCount;
      hide Subscribed;
      counts := [];
      NoneSubscribed(flat, kind, session, subscriber);
      for i := 0 to |names|
        invariant Valid() && monitors == old(monitors) && writers == old(writers)
        invariant flat == Subscribed(old(flat), kind, names[..i], session, subscriber)
        invariant |counts| == i
        invariant forall j :: 0 <= j < i ==>
          counts[j] == AckCount(Subscribed(old(flat), kind, names[..j + 1], session, subscriber), session, kind)
      {
        assert names[..i + 1] == names[..i] + [names[i]];
        SubscribedNext(old(flat), kind, names[..i], names[i], session, subscriber);
        Register(kind, names[i], session, subscriber);
        var count := SubscriptionAckCount(session, kind);
        counts := counts + [count];
      }
      assert names[..|names|] == names;
    }

    method SubscriptionCount(session: nat) returns (n: nat)
      requires Valid()
      ensures n == Count(flat, session)
    {
      hide Indexes;
      hide Records;
      hide Names;
      RecordNames(subscriptions, flat, session, Channel);
      RecordNames(subscriptions, flat, session, Pattern);
      RecordNames(subscriptions, flat, session, ShardChannel);
      n := Size(RecordOf(subscriptions, session));
    }

    /** Distinct names asked for that the session does not hold yet. */
    method AdditionalSubscriptionCount(session: nat, names: seq<bytes>, kind: Kind) returns (n: nat)
      requires Valid()
      ensures n == |(set name | name in names) - Names(flat, session, kind)|
    {
      hide Indexes;
      hide Records;
      hide Names;
      RecordNames(subscriptions, flat, session, kind);
      var requested := set name | name in names;
      n := |requested - NamesOf(RecordOf(subscriptions, session), kind)|;
    }

    method SubscriptionAckCount(session: nat, kind: Kind) returns (n: nat)
      requires Valid()
      ensures n == AckCount(flat, session, kind)
    {
      hide Indexes;
      hide Records;
      var record := RecordOf(subscriptions, session);
      RecordNames(subscriptions, flat, session, Channel);
      RecordNames(subscriptions, flat, session, Pattern);
      RecordNames(subscriptions, flat, session, ShardChannel);
      n := if kind.ShardChannel? then |record.shardChannels| else |record.channels| + |record.patterns|;
    }

    /** Every subscription of the session goes, found through its record alone. */
    method UnsubscribeAll(session: nat)
      requires Valid()
      modifies this
      ensures Valid() && monitors == old(monitors) && writers == old(writers)
      ensures flat == Without(old(flat), {session})
    {
      hide Indexes;
      hide Records;
      hide Pruned;
      PruneRemovesSession(channels, Channel, flat, subscriptions, session);
      PruneRemovesSession(patterns, Pattern, flat, subscriptions, session);
      PruneRemovesSession(shardChannels, ShardChannel, flat, subscriptions, session);
      if session !in subscriptions {
        NoRecordNoSubscription(subscriptions, flat, session);
        return;
      }
      var record := subscriptions[session];
      DropRecord(subscriptions, flat, session);
      subscriptions := subscriptions - {session};
      channels := Prune(channels, record.channels, session);
      patterns := Prune(patterns, record.patterns, session);
      shardChannels := Prune(shardChannels, record.shardChannels, session);
      flat := Without(flat, {session});
    }

    /** What is done to a session whose writer failed, that disconnects, or that resets. */
    method RemoveSharedWriterState(session: nat)
      requires Valid()
      modifies this
      ensures Valid() && writers == old(writers)
      ensures flat == Without(old(flat), {session}) && monitors == old(monitors) - {session}
    {
      UnsubscribeAll(session);
      monitors := monitors - {session};
    }

    /** Queues a message if the writer is open and has room; otherwise the writer is closed. */
    method TryWrite(writer: nat, payload: bytes) returns (ok: bool)
      requires Valid() && writer in writers
      modifies this`writers
      ensures Valid()
      ensures ok == CanQueue(old(writers)[writer], payload)
      ensures ok <==>
        var w := old(writers)[writer];
        !w.closed && w.slots >= 1 && |payload| <= 65 * 1024 * 1024 && w.permits >= 1
        && (w.permits >= |payload| || w.permits >= 16 * 1024 * 1024)
      ensures ok ==> writers == old(writers)[writer := Queued(old(writers)[writer], payload)]
      ensures !ok ==> writers == old(writers)[writer := old(writers)[writer].(closed := true)]
    {
      var w := writers[writer];
      if w.closed {
        assert writers[writer := w.(closed := true)] == writers;
        return false;
      }
      if |payload| > MAX_MESSAGE_BYTES || PermitsFor(payload) > w.permits || w.slots == 0 {
        writers := writers[writer := w.(closed := true)];
        return false;
      }
      writers := writers[writer := Queued(w, payload)];
      return true;
    }

    /** A publication so far: dropped sessions are gone from every view, everything else is as found. */
    ghost predicate Reached(pub: Publication, done: Progress)
      reads this
    {
      && Valid()
      && flat == Without(pub.flat, done.gone)
      && monitors == pub.monitors - done.gone
      && writers.Keys == pub.writers.Keys
      && (forall id :: id in writers ==> Accounts(pub, done, id, writers[id]))
      && Fair(done, writers)
    }

    /** One delivery: a closed or full writer costs the session all its subscriptions. */
    method Deliver(d: Delivery, channel: bytes, message: bytes, shard: bool,
                   ghost pub: Publication, ghost done: Progress)
      returns (ok: bool, ghost next: Progress)
      requires Reached(pub, done) && d !in done.handled && d.subscriber.writer in writers
      requires channel == pub.channel && message == pub.message && shard == pub.shard
      modifies this
      ensures next.handled == done.handled + {d}
      ensures next.sent == if ok then done.sent + [d] else done.sent
      ensures Reached(pub, next) && writers.Keys == old(writers.Keys)
    {
      hide Indexes;
      hide Records;
      hide Accounts;
      hide Fair;
      hide Payload;
      ghost var id := d.subscriber.writer;
      ghost var before := writers;
      WithoutTwice(pub.flat, done.gone, {d.session});
      FairGives(done, before);
      ok := false;
      if !writers[d.subscriber.writer].closed {
        var payload := MessageChunks(FieldsOf(d, channel, shard), message, d.subscriber.protocol);
        PayloadIs(d, channel, message, shard, payload);
        ok := TryWrite(d.subscriber.writer, payload);
      }
      if ok {
        next := Sent(done, d);
        forall w | w in before {
          AccountsAfterQueuing(pub, done, w, before[w], d);
        }
        FairAfterQueuing(done, before, d, Payload(d, channel, message, shard));
      } else {
        next := Refused(done, d);
        forall w | w in before {
          AccountsAfterRefusal(pub, done, w, before[w], d);
        }
        FairAfterRefusal(done, before, d);
        assert before[id := before[id].(closed := true)] == writers;
        RemoveSharedWriterState(d.session);
      }
    }

    /** Everyone on one list, in whatever order the map is walked. */
    static method Snapshot(list: map<nat, Subscriber>, pattern: Option<bytes>) returns (ds: seq<Delivery>)
      ensures Distinct(ds)
      ensures forall d :: d in ds <==> OnList(list, pattern, d)
    {
      ds := [];
      var todo := list.Keys;
      while todo != {}
        invariant todo <= list.Keys
        invariant Distinct(ds)
        invariant forall d :: d in ds <==> OnList(list, pattern, d) && d.session !in todo
        decreases |todo|
      {
        var session :| session in todo;
        ds := ds + [Delivery(session, list[session], pattern)];
        todo := todo - {session};
      }
    }

    /** Sends to each in turn and counts what was queued. */
    method SendAll(ds: seq<Delivery>, channel: bytes, message: bytes, shard: bool,
                   ghost pub: Publication, ghost done: Progress)
      returns (n: nat, ghost next: Progress)
      requires Reached(pub, done) && Distinct(ds)
      requires forall d :: d in ds ==> d !in done.handled && d.subscriber.writer in writers
      requires channel == pub.channel && message == pub.message && shard == pub.shard
      modifies this
      ensures Reached(pub, next) && writers.Keys == old(writers.Keys)
      ensures next.handled == done.handled + (set d | d in ds)
      ensures |next.sent| == |done.sent| + n
    {
      hide Reached;
      n, next := 0, done;
      for i := 0 to |ds|
        invariant Reached(pub, next)
        invariant writers.Keys == old(writers.Keys)
        invariant next.handled == done.handled + (set d | d in ds[..i])
        invariant |next.sent| == |done.sent| + n
      {
        assert ds[i] !in ds[..i];
        assert ds[..i + 1] == ds[..i] + [ds[i]];
        var ok;
        ghost var before := next;
        ok, next := Deliver(ds[i], channel, message, shard, pub, next);
        if ok {
          n := n + 1;
        }
      }
      assert ds[..|ds|] == ds;
    }

    /** Drops the sessions whose writer is already closed; the others are kept in order. */
    method DropClosed(ds: seq<Delivery>, ghost pub: Publication, ghost done: Progress)
      returns (live: seq<Delivery>, ghost next: Progress)
      requires Reached(pub, done) && Distinct(ds)
      requires forall d :: d in ds ==> d !in done.handled && d.subscriber.writer in writers
      modifies this
      ensures Reached(pub, next) && next.sent == done.sent && writers == old(writers)
      ensures Distinct(live) && (forall d :: d in live ==> d in ds && d !in next.handled)
      ensures next.handled + (set d | d in live) == done.handled + (set d | d in ds)
    {
      hide Accounts;
      hide Fair;
      hide Indexes;
      hide Records;
      live, next := [], done;
      for i := 0 to |ds|
        invariant Reached(pub, next) && next.sent == done.sent && writers == old(writers)
        invariant Distinct(live)
        invariant forall d :: d in live ==> d in ds[..i] && d !in next.handled
        invariant next.handled + (set d | d in live) == done.handled + (set d | d in ds[..i])
      {
        var d := ds[i];
        assert d !in ds[..i];
        assert ds[..i + 1] == ds[..i] + [d];
        if writers[d.subscriber.writer].closed {
          FairGives(next, writers);
          forall w | w in writers {
            AccountsAfterRefusal(pub, next, w, writers[w], d);
          }
          FairAfterRefusal(next, writers, d);
          assert writers[d.subscriber.writer := writers[d.subscriber.writer].(closed := true)] == writers;
          WithoutTwice(pub.flat, next.gone, {d.session});
          RemoveSharedWriterState(d.session);
          next := Refused(next, d);
        } else {
          live := live + [d];
        }
      }
      assert ds[..|ds|] == ds;
    }

    /** The subscribers of every pattern that matches, pattern by pattern. */
    method MatchingPatterns(channel: bytes) returns (names: seq<bytes>, groups: seq<seq<Delivery>>)
      requires Valid()
      ensures |groups| == |names|
      ensures forall n :: n in names <==> n in patterns && Patterns.PatternMatches(n, channel)
      ensures forall i, j :: 0 <= i < j < |names| ==> names[i] != names[j]
      ensures forall i :: 0 <= i < |groups| ==> Distinct(groups[i])
      ensures forall i, d :: 0 <= i < |groups| ==> (d in groups[i] <==> OnList(patterns[names[i]], Some(names[i]), d))
    {
      hide Indexes;
      hide Records;
      hide Distinct;
      hide OnList;
      hide Patterns.PatternMatches;
      names, groups := [], [];
      var todo := patterns.Keys;
      while todo != {}
        invariant todo <= patterns.Keys && |groups| == |names|
        invariant forall n :: n in names <==> n in patterns && n !in todo && Patterns.PatternMatches(n, channel)
        invariant forall i, j :: 0 <= i < j < |names| ==> names[i] != names[j]
        invariant forall i :: 0 <= i < |groups| ==> Distinct(groups[i])
        invariant forall i, d :: 0 <= i < |groups| ==>
                    (d in groups[i] <==> OnList(patterns[names[i]], Some(names[i]), d))
        decreases |todo|
      {
        var name :| name in todo;
        var matches := Patterns.GlobMatch(name, channel);
        if matches {
          var ds := Snapshot(patterns[name], Some(name));
          names, groups := names + [name], groups + [ds];
        }
        todo := todo - {name};
      }
    }

    /** The pattern half of a publication, after the direct half. */
    method PublishToPatterns(names: seq<bytes>, groups: seq<seq<Delivery>>, channel: bytes, message: bytes,
                             ghost pub: Publication, ghost done: Progress)
      returns (n: nat, ghost next: Progress)
      requires Reached(pub, done) && channel == pub.channel && message == pub.message && !pub.shard
      requires |groups| == |names|
      requires forall i, j :: 0 <= i < j < |names| ==> names[i] != names[j]
      requires forall i :: 0 <= i < |groups| ==> Distinct(groups[i])
      requires forall i, d :: 0 <= i < |groups| && d in groups[i] ==>
                 d.pattern == Some(names[i]) && d.subscriber.writer in writers
      requires forall d :: d in done.handled ==> d.pattern.None?
      modifies this
      ensures Reached(pub, next)
      ensures |next.sent| == |done.sent| + n
      ensures forall d :: d in next.handled <==> d in done.handled || InSome(groups, d)
    {
      hide Reached;
      hide Distinct;
      n, next := 0, done;
      for i := 0 to |groups|
        invariant Reached(pub, next) && writers.Keys == old(writers.Keys)
        invariant |next.sent| == |done.sent| + n
        invariant forall d :: d in next.handled <==> d in done.handled || InSome(groups[..i], d)
      {
        assert groups[..i + 1] == groups[..i] + [groups[i]];
        forall d | d in groups[i]
          ensures d !in next.handled
        {
          NotEarlier(names, groups, i, d);
        }
        var live, sent;
        ghost var mid;
        live, mid := DropClosed(groups[i], pub, next);
        if live != [] {
          sent, next := SendAll(live, channel, message, false, pub, mid);
          n := n + sent;
        } else {
          next := mid;
        }
      }
      assert groups[..|groups|] == groups;
    }

    /** Everyone the publication is for, as found at the start. */
    method FindTargets(channel: bytes, shard: bool)
      returns (direct: seq<Delivery>, names: seq<bytes>, groups: seq<seq<Delivery>>)
      requires Valid()
      ensures Distinct(direct)
      ensures forall d :: d in direct <==> d.pattern.None? && IsTarget(flat, channel, shard, d)
      ensures |groups| == |names| && (shard ==> names == [])
      ensures forall i, j :: 0 <= i < j < |names| ==> names[i] != names[j]
      ensures forall i :: 0 <= i < |groups| ==> Distinct(groups[i])
      ensures forall i, d :: 0 <= i < |groups| && d in groups[i] ==> d.pattern == Some(names[i])
      ensures forall d :: InSome(groups, d) <==> d.pattern.Some? && IsTarget(flat, channel, shard, d)
    {
      hide Indexes;
      hide Records;
      hide IsTarget;
      hide Distinct;
      hide OnList;
      hide InSome;
      hide Patterns.PatternMatches;
      var source := if shard then shardChannels else channels;
      direct := [];
      ListIsTargets(source, channel, shard, flat);
      if channel in source {
        direct := Snapshot(source[channel], None);
      } else {
        NoneDistinct();
      }
      names, groups := [], [];
      if !shard {
        names, groups := MatchingPatterns(channel);
        ListHasPattern(patterns, names, groups);
        GroupsAreTargets(patterns, names, groups, channel, flat);
      } else {
        NoShardPatterns(flat, channel);
      }
    }

    /** The direct half and then the pattern half. */
    method PublishToTargets(channel: bytes, message: bytes, shard: bool) returns (count: nat, ghost done: Progress)
      requires Valid()
      modifies this
      ensures Reached(Publication(channel, message, shard, old(flat), old(writers), old(monitors)), done)
      ensures forall d :: d in done.handled <==> IsTarget(old(flat), channel, shard, d)
      ensures count == |done.sent|
    {
      hide Reached;
      hide Indexes;
      hide Records;
      hide IsTarget;
      hide Distinct;
      ghost var pub := Publication(channel, message, shard, flat, writers, monitors);
      var direct, names, groups := FindTargets(channel, shard);
      StartOf(pub);
      forall d | IsTarget(flat, channel, shard, d)
        ensures d.subscriber.writer in writers
      {
        TargetHasWriter(flat, writers, channel, shard, d);
      }
      done := Progress({}, [], {});
      if direct == [] && names == [] {
        return 0, done;
      }
      forall i, d | 0 <= i < |groups| && d in groups[i]
        ensures IsTarget(flat, channel, shard, d)
      {
        assert InSome(groups, d);
      }
      count, done := SendAll(direct, channel, message, shard, pub, done);
      if !shard {
        var more;
        more, done := PublishToPatterns(names, groups, channel, message, pub, done);
        count := count + more;
      }
    }

    /** Publishing deals with exactly the subscribers found at the start: of the channel, of the shard
        channel, or of the patterns that match. Each has its message queued once, and reads it as
        such, or its session is dropped. The answer is the number of messages queued. */
    method Publish(channel: bytes, message: bytes, shard: bool) returns (count: nat, ghost done: Progress)
      requires Valid()
      modifies this
      ensures Reached(Publication(channel, message, shard, old(flat), old(writers), old(monitors)), done)
      ensures count == |done.sent|
      ensures forall d: Delivery :: d.pattern.None? ==>
        var key := Key(if shard then ShardChannel else Channel, channel, d.session);
        (d in done.handled <==> key in old(flat) && old(flat)[key] == d.subscriber)
      ensures forall d: Delivery :: d.pattern.Some? ==>
        var key := Key(Pattern, d.pattern.value, d.session);
        (d in done.handled <==> !shard && key in old(flat) && old(flat)[key] == d.subscriber
                                && Patterns.PatternMatches(d.pattern.value, channel))
      ensures writers.Keys == old(writers.Keys)
      ensures forall id :: id in writers ==>
        Received(old(writers)[id].queue, writers[id].queue, DeliveriesTo(id, done.sent), channel, message, shard)
    {
      hide Indexes;
      hide Records;
      hide Accounts;
      hide Fair;
      hide Received;
      hide Patterns.PatternMatches;
      ghost var pub := Publication(channel, message, shard, flat, writers, monitors);
      count, done := PublishToTargets(channel, message, shard);
      forall id | id in writers
        ensures Received(pub.writers[id].queue, writers[id].queue, DeliveriesTo(id, done.sent), channel, message, shard)
      {
        AccountsAreReceived(pub, done, id, writers[id]);
      }
    }

    lemma StartOf(pub: Publication)
      requires Valid() && pub.flat == flat && pub.writers == writers && pub.monitors == monitors
      ensures Reached(pub, Progress({}, [], {}))
    {
      assert Without(flat, {}) == flat;
    }
  }
}
