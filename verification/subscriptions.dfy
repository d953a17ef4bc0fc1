/** Who is subscribed to what: three name indices and one record per session, kept in step.

    The reference is a single flat map from (kind, name, session) to the subscriber; the indices and
    records are two redundant views of it. */
module Subscriptions {
  import opened Bytes
  import opened Frames

  datatype Kind = Channel | Pattern | ShardChannel

  datatype Subscriber = Subscriber(writer: nat, protocol: RespVersion)

  datatype Key = Key(kind: Kind, name: bytes, session: nat)

  type Flat = map<Key, Subscriber>

  type Index = map<bytes, map<nat, Subscriber>>

  datatype Record = Record(channels: set<bytes>, patterns: set<bytes>, shardChannels: set<bytes>)

  const NO_SUBSCRIPTIONS := Record({}, {}, {})

  function NamesOf(record: Record, kind: Kind): set<bytes> {
    match kind
    case Channel => record.channels
    case Pattern => record.patterns
    case ShardChannel => record.shardChannels
  }

  function WithNames(record: Record, kind: Kind, names: set<bytes>): Record {
    match kind
    case Channel => record.(channels := names)
    case Pattern => record.(patterns := names)
    case ShardChannel => record.(shardChannels := names)
  }

  function Size(record: Record): nat {
    |record.channels| + |record.patterns| + |record.shardChannels|
  }

  /** The index holds exactly the subscriptions of its kind, and no empty list of subscribers. */
  ghost predicate Indexes(index: Index, kind: Kind, flat: Flat) {
    && (forall n, s :: Key(kind, n, s) in flat <==> n in index && s in index[n])
    && (forall n, s :: n in index && s in index[n] ==> flat[Key(kind, n, s)] == index[n][s])
    && (forall n :: n in index ==> index[n] != map[])
  }

  /** The records list exactly the subscriptions of each session, and no record is empty. */
  ghost predicate Records(records: map<nat, Record>, flat: Flat) {
    && (forall kind, n, s :: Key(kind, n, s) in flat <==> s in records && n in NamesOf(records[s], kind))
    && (forall s :: s in records ==> records[s] != NO_SUBSCRIPTIONS)
  }

  // Adding one subscription.

  function Insert(index: Index, name: bytes, session: nat, subscriber: Subscriber): Index {
    index[name := (if name in index then index[name] else map[])[session := subscriber]]
  }

  function RecordOf(records: map<nat, Record>, session: nat): Record {
    if session in records then records[session] else NO_SUBSCRIPTIONS
  }

  lemma InsertKeepsIndex(index: Index, kind: Kind, flat: Flat, name: bytes, session: nat, subscriber: Subscriber)
    requires Indexes(index, kind, flat)
    ensures Indexes(Insert(index, name, session, subscriber), kind, flat[Key(kind, name, session) := subscriber])
  {
    var list := if name in index then index[name] else map[];
    assert session in list[session := subscriber];
  }

  lemma OtherKindKeepsIndex(index: Index, kind: Kind, flat: Flat, key: Key, subscriber: Subscriber)
    requires Indexes(index, kind, flat) && key.kind != kind
    ensures Indexes(index, kind, flat[key := subscriber])
  {
  }

  lemma InsertKeepsIndices(c: Index, p: Index, h: Index, flat: Flat, key: Key, subscriber: Subscriber)
    requires Indexes(c, Channel, flat) && Indexes(p, Pattern, flat) && Indexes(h, ShardChannel, flat)
    ensures
      var (n, s, after) := (key.name, key.session, flat[key := subscriber]);
      && Indexes(if key.kind.Channel? then Insert(c, n, s, subscriber) else c, Channel, after)
      && Indexes(if key.kind.Pattern? then Insert(p, n, s, subscriber) else p, Pattern, after)
      && Indexes(if key.kind.ShardChannel? then Insert(h, n, s, subscriber) else h, ShardChannel, after)
  {
    hide Indexes;
    hide Insert;
    if key.kind.Channel? {
      InsertKeepsIndex(c, Channel, flat, key.name, key.session, subscriber);
    } else {
      OtherKindKeepsIndex(c, Channel, flat, key, subscriber);
    }
    if key.kind.Pattern? {
      InsertKeepsIndex(p, Pattern, flat, key.name, key.session, subscriber);
    } else {
      OtherKindKeepsIndex(p, Pattern, flat, key, subscriber);
    }
    if key.kind.ShardChannel? {
      InsertKeepsIndex(h, ShardChannel, flat, key.name, key.session, subscriber);
    } else {
      OtherKindKeepsIndex(h, ShardChannel, flat, key, subscriber);
    }
  }

  lemma InsertKeepsRecords(records: map<nat, Record>, flat: Flat, key: Key, subscriber: Subscriber)
    requires Records(records, flat)
    ensures
      var record := RecordOf(records, key.session);
      Records(records[key.session := WithNames(record, key.kind, NamesOf(record, key.kind) + {key.name})],
              flat[key := subscriber])
  {
    var record := RecordOf(records, key.session);
    assert key.name in NamesOf(WithNames(record, key.kind, NamesOf(record, key.kind) + {key.name}), key.kind);
  }

  // Removing one subscription: an emptied list or record is dropped.

  function Remove(index: Index, name: bytes, session: nat): Index {
    if name !in index then index
    else if index[name] - {session} == map[] then index - {name}
    else index[name := index[name] - {session}]
  }

  function Unlisted(records: map<nat, Record>, key: Key): map<nat, Record> {
    if key.session !in records then records
    else
      var record := records[key.session];
      var left := WithNames(record, key.kind, NamesOf(record, key.kind) - {key.name});
      if Size(left) == 0 then records - {key.session} else records[key.session := left]
  }

  lemma RemoveKeepsIndex(index: Index, kind: Kind, flat: Flat, name: bytes, session: nat)
    requires Indexes(index, kind, flat)
    ensures Indexes(Remove(index, name, session), kind, flat - {Key(kind, name, session)})
  {
    if name in index {
      assert forall s :: s in index[name] && s != session ==> s in index[name] - {session};
    }
  }

  lemma OtherKindKeepsIndexRemoved(index: Index, kind: Kind, flat: Flat, key: Key)
    requires Indexes(index, kind, flat) && key.kind != kind
    ensures Indexes(index, kind, flat - {key})
  {
  }

  lemma RemoveKeepsIndices(c: Index, p: Index, h: Index, flat: Flat, key: Key)
    requires Indexes(c, Channel, flat) && Indexes(p, Pattern, flat) && Indexes(h, ShardChannel, flat)
    ensures
      && Indexes(if key.kind.Channel? then Remove(c, key.name, key.session) else c, Channel, flat - {key})
      && Indexes(if key.kind.Pattern? then Remove(p, key.name, key.session) else p, Pattern, flat - {key})
      && Indexes(if key.kind.ShardChannel? then Remove(h, key.name, key.session) else h, ShardChannel, flat - {key})
  {
    hide Indexes;
    hide Remove;
    if key.kind.Channel? {
      RemoveKeepsIndex(c, Channel, flat, key.name, key.session);
    } else {
      OtherKindKeepsIndexRemoved(c, Channel, flat, key);
    }
    if key.kind.Pattern? {
      RemoveKeepsIndex(p, Pattern, flat, key.name, key.session);
    } else {
      OtherKindKeepsIndexRemoved(p, Pattern, flat, key);
    }
    if key.kind.ShardChannel? {
      RemoveKeepsIndex(h, ShardChannel, flat, key.name, key.session);
    } else {
      OtherKindKeepsIndexRemoved(h, ShardChannel, flat, key);
    }
  }

  lemma UnlistedKeepsRecords(records: map<nat, Record>, flat: Flat, key: Key)
    requires Records(records, flat)
    ensures Records(Unlisted(records, key), flat - {key})
  {
    if key.session in records {
      var record := records[key.session];
      var left := WithNames(record, key.kind, NamesOf(record, key.kind) - {key.name});
      assert Size(left) == 0 <==> left == NO_SUBSCRIPTIONS;
      forall kind, n
        ensures n in NamesOf(left, kind) <==> n in NamesOf(record, kind) && !(kind == key.kind && n == key.name)
      {
      }
    }
  }

  // Removing a session everywhere, by following its record only.

  function Without(flat: Flat, sessions: set<nat>): Flat {
    map k | k in flat && k.session !in sessions :: flat[k]
  }

  /** The index after the session is removed from some of its names. */
  function Pruned(index: Index, names: set<bytes>, session: nat): Index {
    map n | n in index && !(n in names && index[n] - {session} == map[])
      :: if n in names then index[n] - {session} else index[n]
  }

  method Prune(index: Index, names: set<bytes>, session: nat) returns (r: Index)
    ensures r == Pruned(index, names, session)
  {
    r := index;
    var todo := names;
    while todo != {}
      invariant todo <= names
      invariant r == Pruned(index, names - todo, session)
      decreases |todo|
    {
      var name :| name in todo;
      r := Remove(r, name, session);
      todo := todo - {name};
    }
    assert names - todo == names;
  }

  /** Following the record is enough: the record names every list the session is on. */
  lemma PruneRemovesSession(index: Index, kind: Kind, flat: Flat, records: map<nat, Record>, session: nat)
    requires Indexes(index, kind, flat) && Records(records, flat)
    ensures Indexes(Pruned(index, NamesOf(RecordOf(records, session), kind), session), kind, Without(flat, {session}))
  {
    var names := NamesOf(RecordOf(records, session), kind);
    var pruned := Pruned(index, names, session);
    forall n, s
      ensures Key(kind, n, s) in Without(flat, {session}) <==> n in pruned && s in pruned[n]
    {
      assert Key(kind, n, session) in flat <==> n in names;
      assert Key(kind, n, s) in flat <==> n in index && s in index[n];
      if n in index && s in index[n] && s != session {
        assert s in index[n] - {session};
      }
    }
  }

  lemma DropRecord(records: map<nat, Record>, flat: Flat, session: nat)
    requires Records(records, flat)
    ensures Records(records - {session}, Without(flat, {session}))
  {
  }

  lemma NoRecordNoSubscription(records: map<nat, Record>, flat: Flat, session: nat)
    requires Records(records, flat) && session !in records
    ensures Without(flat, {session}) == flat
  {
    forall k | k in flat
      ensures k.session != session
    {
      assert Key(k.kind, k.name, k.session) in flat;
    }
  }

  lemma WithoutTwice(flat: Flat, a: set<nat>, b: set<nat>)
    ensures Without(Without(flat, a), b) == Without(flat, a + b)
  {
  }

  /** The views are determined by the flat map, so undoing a subscription restores them exactly. */
  lemma ViewsAreUnique(a: Index, b: Index, kind: Kind, flat: Flat)
    requires Indexes(a, kind, flat) && Indexes(b, kind, flat)
    ensures a == b
  {
    OneSided(a, b, kind, flat);
    OneSided(b, a, kind, flat);
  }

  lemma OneSided(a: Index, b: Index, kind: Kind, flat: Flat)
    requires Indexes(a, kind, flat) && Indexes(b, kind, flat)
    ensures forall n :: n in a ==> n in b && a[n] == b[n]
  {
    forall n | n in a
      ensures n in b && a[n] == b[n]
    {
      var s :| s in a[n];
      assert Key(kind, n, s) in flat;
      forall t
        ensures t in a[n] <==> t in b[n]
      {
        assert Key(kind, n, t) in flat <==> t in a[n];
      }
    }
  }

  // Counting.

  ghost function Names(flat: Flat, session: nat, kind: Kind): set<bytes> {
    set k | k in flat && k.session == session && k.kind == kind :: k.name
  }

  ghost function Count(flat: Flat, session: nat): nat {
    |Names(flat, session, Channel)| + |Names(flat, session, Pattern)| + |Names(flat, session, ShardChannel)|
  }

  /** Acknowledgements count channels and patterns together, shard channels apart. */
  ghost function AckCount(flat: Flat, session: nat, kind: Kind): nat {
    if kind.ShardChannel? then |Names(flat, session, ShardChannel)|
    else |Names(flat, session, Channel)| + |Names(flat, session, Pattern)|
  }

  ghost function Held(flat: Flat, session: nat): set<Key> {
    set k | k in flat && k.session == session
  }

  ghost function HeldOf(flat: Flat, session: nat, kind: Kind): set<Key> {
    set k | k in Held(flat, session) && k.kind == kind
  }

  lemma NamesAreKeys(flat: Flat, session: nat, kind: Kind)
    ensures |Names(flat, session, kind)| == |HeldOf(flat, session, kind)|
  {
    SameSize(HeldOf(flat, session, kind), Names(flat, session, kind));
  }

  lemma Together(a: set<Key>, b: set<Key>, all: set<Key>)
    requires a !! b && all == a + b
    ensures |all| == |a| + |b|
  {
  }

  lemma {:induction false} SameSize(keys: set<Key>, names: set<bytes>)
    requires forall k :: k in keys ==> k.name in names
    requires forall n :: n in names ==> exists k :: k in keys && k.name == n
    requires forall a, b :: a in keys && b in keys && a.name == b.name ==> a == b
    ensures |keys| == |names|
    decreases |keys|
  {
    if keys == {} {
      assert names == {};
    } else {
      var k :| k in keys;
      forall n | n in names - {k.name}
        ensures exists other :: other in keys - {k} && other.name == n
      {
        var other :| other in keys && other.name == n;
        assert other in keys - {k};
      }
      SameSize(keys - {k}, names - {k.name});
    }
  }

  /** A session is counted once for each of its subscriptions; an acknowledgement counts the shard
      channels of the session, or all its other subscriptions. */
  lemma CountsAreKeys(flat: Flat, session: nat, kind: Kind)
    ensures Count(flat, session) == |Held(flat, session)|
    ensures AckCount(flat, session, kind)
         == |set k | k in Held(flat, session) && (k.kind == ShardChannel <==> kind == ShardChannel)|
  {
    hide Names;
    hide Held;
    var held := Held(flat, session);
    var shard := HeldOf(flat, session, ShardChannel);
    var other := set k | k in held && k.kind != ShardChannel;
    NamesAreKeys(flat, session, Channel);
    NamesAreKeys(flat, session, Pattern);
    NamesAreKeys(flat, session, ShardChannel);
    Together(HeldOf(flat, session, Channel), HeldOf(flat, session, Pattern), other);
    Together(other, shard, held);
    assert (set k | k in held && (k.kind == ShardChannel <==> kind == ShardChannel))
        == if kind == ShardChannel then shard else other;
  }

  lemma RecordNames(records: map<nat, Record>, flat: Flat, session: nat, kind: Kind)
    requires Records(records, flat)
    ensures NamesOf(RecordOf(records, session), kind) == Names(flat, session, kind)
  {
    forall n
      ensures n in NamesOf(RecordOf(records, session), kind) <==> n in Names(flat, session, kind)
    {
      assert Key(kind, n, session) in flat <==> session in records && n in NamesOf(records[session], kind);
    }
  }

  /** The flat map after one subscriber takes several names in order. */
  ghost function Subscribed(flat: Flat, kind: Kind, names: seq<bytes>, session: nat, subscriber: Subscriber): Flat {
    if names == [] then flat
    else
      var before := Subscribed(flat, kind, names[..|names| - 1], session, subscriber);
      before[Key(kind, names[|names| - 1], session) := subscriber]
  }

  lemma NoneSubscribed(flat: Flat, kind: Kind, session: nat, subscriber: Subscriber)
    ensures Subscribed(flat, kind, [], session, subscriber) == flat
  {
  }

  lemma SubscribedNext(flat: Flat, kind: Kind, names: seq<bytes>, name: bytes, session: nat, subscriber: Subscriber)
    ensures Subscribed(flat, kind, names + [name], session, subscriber)
         == Subscribed(flat, kind, names, session, subscriber)[Key(kind, name, session) := subscriber]
  {
    assert (names + [name])[..|names|] == names;
  }

  lemma {:induction false} SubscribedNames(flat: Flat, kind: Kind, names: seq<bytes>, session: nat,
                                           subscriber: Subscriber)
    ensures
      var after := Subscribed(flat, kind, names, session, subscriber);
      && Names(after, session, kind) == Names(flat, session, kind) + (set n | n in names)
      && (forall other :: other != kind ==> Names(after, session, other) == Names(flat, session, other))
      && (forall k: Key :: k.session != session ==> (k in after <==> k in flat))
    decreases |names|
  {
    if names != [] {
      var last := names[|names| - 1];
      var front := names[..|names| - 1];
      SubscribedNames(flat, kind, front, session, subscriber);
      var before := Subscribed(flat, kind, front, session, subscriber);
      var key := Key(kind, last, session);
      assert names == front + [last];
      assert (set n | n in names) == (set n | n in front) + {last};
      forall n
        ensures n in Names(before[key := subscriber], session, kind) <==> n in Names(before, session, kind) + {last}
      {
        assert Key(kind, n, session) in before[key := subscriber] <==> Key(kind, n, session) in before || n == last;
      }
      assert Names(before[key := subscriber], session, kind) == Names(before, session, kind) + {last};
      forall other | other != kind
        ensures Names(before[key := subscriber], session, other) == Names(before, session, other)
      {
        forall n
          ensures n in Names(before[key := subscriber], session, other) <==> n in Names(before, session, other)
        {
          assert Key(other, n, session) in before[key := subscriber] <==> Key(other, n, session) in before;
        }
      }
    }
  }

  /** Repeated and already held names do not count against the limit. */
  lemma CountAfterSubscribing(flat: Flat, kind: Kind, names: seq<bytes>, session: nat, subscriber: Subscriber)
    ensures Count(Subscribed(flat, kind, names, session, subscriber), session)
         == Count(flat, session) + |(set n | n in names) - Names(flat, session, kind)|
  {
    SubscribedNames(flat, kind, names, session, subscriber);
    var held := Names(flat, session, kind);
    var asked := set n | n in names;
    assert held + asked == held + (asked - held);
  }

  lemma FewerNames(flat: Flat, less: Flat, session: nat)
    requires forall k :: k in less ==> k in flat
    ensures Count(less, session) <= Count(flat, session)
  {
    forall kind
      ensures Names(less, session, kind) <= Names(flat, session, kind)
    {
    }
    SmallerSet(Names(less, session, Channel), Names(flat, session, Channel));
    SmallerSet(Names(less, session, Pattern), Names(flat, session, Pattern));
    SmallerSet(Names(less, session, ShardChannel), Names(flat, session, ShardChannel));
  }

  lemma SmallerSet(a: set<bytes>, b: set<bytes>)
    requires a <= b
    ensures |a| <= |b|
  {
    assert b == a + (b - a);
  }

  // Every run of the operations, under one limit.

  /** What one operation of the session manager does to the subscriptions: the contracts of the
      manager's operations state these steps. */
  datatype Act =
    | Subscribe(kind: Kind, names: seq<bytes>, session: nat, subscriber: Subscriber)
    | Unsubscribe(key: Key)
    | Leave(session: nat)              // unsubscribing from everything, disconnecting, resetting
    | Lose(sessions: set<nat>)         // the sessions a publication drops

  ghost function Enact(flat: Flat, limit: nat, act: Act): Flat {
    match act
    case Subscribe(kind, names, session, subscriber) =>
      if Count(flat, session) + |(set n | n in names) - Names(flat, session, kind)| > limit then flat
      else Subscribed(flat, kind, names, session, subscriber)
    case Unsubscribe(key) => flat - {key}
    case Leave(session) => Without(flat, {session})
    case Lose(sessions) => Without(flat, sessions)
  }

  ghost predicate Run(limit: nat, flats: seq<Flat>, acts: seq<Act>) {
    && |flats| == |acts| + 1
    && flats[0] == map[]
    && forall i :: 0 <= i < |acts| ==> flats[i + 1] == Enact(flats[i], limit, acts[i])
  }

  lemma OthersCount(flat: Flat, kind: Kind, names: seq<bytes>, other: nat, subscriber: Subscriber, session: nat)
    requires other != session
    ensures Count(Subscribed(flat, kind, names, other, subscriber), session) == Count(flat, session)
  {
    SubscribedNames(flat, kind, names, other, subscriber);
    var after := Subscribed(flat, kind, names, other, subscriber);
    forall k: Kind
      ensures Names(after, session, k) == Names(flat, session, k)
    {
      forall n
        ensures n in Names(after, session, k) <==> n in Names(flat, session, k)
      {
        assert Key(k, n, session) in after <==> Key(k, n, session) in flat;
      }
    }
  }

  lemma ActKeepsLimit(flat: Flat, limit: nat, act: Act, session: nat)
    requires Count(flat, session) <= limit
    ensures Count(Enact(flat, limit, act), session) <= limit
  {
    hide Count;
    hide Names;
    hide Subscribed;
    match act {
      case Subscribe(kind, names, other, subscriber) =>
        if other == session {
          CountAfterSubscribing(flat, kind, names, session, subscriber);
        } else {
          OthersCount(flat, kind, names, other, subscriber, session);
        }
      case Unsubscribe(key) => FewerNames(flat, flat - {key}, session);
      case Leave(other) => FewerNames(flat, Without(flat, {other}), session);
      case Lose(sessions) => FewerNames(flat, Without(flat, sessions), session);
    }
  }

  /** In every run no session ever holds more subscriptions than the limit. */
  lemma {:induction false} LimitIsKept(limit: nat, flats: seq<Flat>, acts: seq<Act>, n: nat, session: nat)
    requires Run(limit, flats, acts) && n <= |acts|
    ensures Count(flats[n], session) <= limit
    decreases n
  {
    hide Enact;
    if n == 0 {
      assert forall kind :: Names(map[], session, kind) == {};
    } else {
      LimitIsKept(limit, flats, acts, n - 1, session);
      ActKeepsLimit(flats[n - 1], limit, acts[n - 1], session);
      assert flats[n - 1 + 1] == Enact(flats[n - 1], limit, acts[n - 1]);
    }
  }
}
