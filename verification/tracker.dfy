/** Versions of watched keys and of whole databases, moved by a shared clock. */
module Tracker {
  import opened Bytes

  datatype DbKey = DbKey(db: nat, key: bytes)

  datatype Mutation = Mutation(version: nat, watchers: nat)

  datatype Versions = Versions(clock: nat, keys: map<DbKey, Mutation>, dbs: map<nat, nat>)

  const UNTRACKED := Versions(0, map[], map[])

  datatype Op =
    | Register(at: DbKey)
    | Unregister(at: DbKey)
    | BumpKey(at: DbKey)      // a key was changed
    | BumpDb(db: nat)         // a whole database was changed

  /** A key's version moves only while somebody watches it; its entry lives as long. */
  function Apply(v: Versions, op: Op): Versions {
    match op
    case Register(k) =>
      if k in v.keys then v.(keys := v.keys[k := v.keys[k].(watchers := v.keys[k].watchers + 1)])
      else v.(keys := v.keys[k := Mutation(v.clock, 1)])
    case Unregister(k) =>
      if k !in v.keys then v
      else if v.keys[k].watchers > 1 then v.(keys := v.keys[k := v.keys[k].(watchers := v.keys[k].watchers - 1)])
      else v.(keys := v.keys - {k})
    case BumpKey(k) =>
      if k in v.keys then v.(clock := v.clock + 1, keys := v.keys[k := v.keys[k].(version := v.clock + 1)]) else v
    case BumpDb(db) => v.(clock := v.clock + 1, dbs := v.dbs[db := v.clock + 1])
  }

  function ApplyAll(v: Versions, ops: seq<Op>): Versions {
    if ops == [] then v else Apply(ApplyAll(v, ops[..|ops| - 1]), ops[|ops| - 1])
  }

  function KeyVersion(v: Versions, k: DbKey): nat {
    if k in v.keys then v.keys[k].version else 0
  }

  function DbVersion(v: Versions, db: nat): nat {
    if db in v.dbs then v.dbs[db] else 0
  }

  function Watchers(v: Versions, k: DbKey): nat {
    if k in v.keys then v.keys[k].watchers else 0
  }

  lemma {:induction false} ApplySplit(v: Versions, a: seq<Op>, b: seq<Op>)
    ensures ApplyAll(v, a + b) == ApplyAll(ApplyAll(v, a), b)
    decreases |b|
  {
    if b == [] {
      assert a + b == a;
    } else {
      assert (a + b)[..|a + b| - 1] == a + b[..|b| - 1];
      ApplySplit(v, a, b[..|b| - 1]);
    }
  }

  lemma ApplyNext(v: Versions, ops: seq<Op>, op: Op)
    ensures ApplyAll(v, ops + [op]) == Apply(ApplyAll(v, ops), op)
  {
    assert (ops + [op])[..|ops|] == ops;
  }

  /** No version is ahead of the clock, and every entry has a watcher. */
  ghost predicate Sound(v: Versions) {
    && (forall k :: k in v.keys ==> v.keys[k].version <= v.clock && v.keys[k].watchers >= 1)
    && (forall db :: db in v.dbs ==> v.dbs[db] <= v.clock)
  }

  lemma {:induction false} OpsKeepSound(v: Versions, ops: seq<Op>)
    requires Sound(v)
    ensures Sound(ApplyAll(v, ops)) && ApplyAll(v, ops).clock >= v.clock
    decreases |ops|
  {
    if ops != [] {
      OpsKeepSound(v, ops[..|ops| - 1]);
    }
  }

  predicate Touches(op: Op, k: DbKey) {
    op == BumpKey(k) || op == BumpDb(k.db)
  }

  /** The key is being watched all the way through. */
  ghost predicate HeldThroughout(v: Versions, ops: seq<Op>, k: DbKey) {
    forall n :: 0 <= n <= |ops| ==> k in ApplyAll(v, ops[..n]).keys
  }

  /** While a key stays watched, the two versions are the ones first seen exactly when neither the
      key nor its database was touched in between; whatever else happened. */
  lemma {:induction false} VersionsTellTouches(v: Versions, ops: seq<Op>, k: DbKey)
    requires Sound(v) && HeldThroughout(v, ops, k)
    ensures
      var w := ApplyAll(v, ops);
      && (KeyVersion(w, k) == KeyVersion(v, k) && DbVersion(w, k.db) == DbVersion(v, k.db)
          <==> forall op :: op in ops ==> !Touches(op, k))
      && KeyVersion(w, k) >= KeyVersion(v, k) && DbVersion(w, k.db) >= DbVersion(v, k.db)
    decreases |ops|
  {
    if ops != [] {
      var front, last := ops[..|ops| - 1], ops[|ops| - 1];
      assert ops == front + [last];
      forall n | 0 <= n <= |front|
        ensures k in ApplyAll(v, front[..n]).keys
      {
        assert front[..n] == ops[..n];
      }
      assert ops[..0] == [] && ops[..|front|] == front && ops[..|ops|] == ops;
      VersionsTellTouches(v, front, k);
      OpsKeepSound(v, front);
      LastOp(v, ApplyAll(v, front), last, k);
    }
  }

  lemma LastOp(v: Versions, w: Versions, op: Op, k: DbKey)
    requires Sound(v) && Sound(w) && w.clock >= v.clock && k in v.keys && k in w.keys && k in Apply(w, op).keys
    requires KeyVersion(w, k) >= KeyVersion(v, k) && DbVersion(w, k.db) >= DbVersion(v, k.db)
    ensures
      var x := Apply(w, op);
      && KeyVersion(x, k) >= KeyVersion(v, k) && DbVersion(x, k.db) >= DbVersion(v, k.db)
      && (if Touches(op, k) then KeyVersion(x, k) > KeyVersion(v, k) || DbVersion(x, k.db) > DbVersion(v, k.db)
          else KeyVersion(x, k) == KeyVersion(w, k) && DbVersion(x, k.db) == DbVersion(w, k.db))
  {
  }

  /** The shared tracker; `trace` is everything that was done to it. */
  class KeyMutationTracker {
    var clock: nat
    var keyVersions: map<DbKey, Mutation>
    var dbVersions: map<nat, nat>
    ghost var trace: seq<Op>

    ghost function Now(): Versions
      reads this
    {
      Versions(clock, keyVersions, dbVersions)
    }

    ghost predicate Valid()
      reads this
    {
      Now() == ApplyAll(UNTRACKED, trace)
    }

    constructor ()
      ensures Valid() && trace == []
    {
      clock, keyVersions, dbVersions, trace := 0, map[], map[], [];
    }

    method RegisterKey(k: DbKey)
      requires Valid()
      modifies this
      ensures Valid() && trace == old(trace) + [Register(k)]
    {
      hide ApplyAll;
      ApplyNext(UNTRACKED, trace, Register(k));
      if k in keyVersions {
        keyVersions := keyVersions[k := keyVersions[k].(watchers := keyVersions[k].watchers + 1)];
      } else {
        keyVersions := keyVersions[k := Mutation(clock, 1)];
      }
      trace := trace + [Register(k)];
    }

    method UnregisterKey(k: DbKey)
      requires Valid()
      modifies this
      ensures Valid() && trace == old(trace) + [Unregister(k)]
    {
      hide ApplyAll;
      ApplyNext(UNTRACKED, trace, Unregister(k));
      if k in keyVersions {
        if keyVersions[k].watchers > 1 {
          keyVersions := keyVersions[k := keyVersions[k].(watchers := keyVersions[k].watchers - 1)];
        } else {
          keyVersions := keyVersions - {k};
        }
      }
      trace := trace + [Unregister(k)];
    }

    method Bump(k: DbKey)
      requires Valid()
      modifies this
      ensures Valid() && trace == old(trace) + [BumpKey(k)]
    {
      hide ApplyAll;
      ApplyNext(UNTRACKED, trace, BumpKey(k));
      if k in keyVersions {
        clock := clock + 1;
        keyVersions := keyVersions[k := keyVersions[k].(version := clock)];
      }
      trace := trace + [BumpKey(k)];
    }

    method BumpDatabase(db: nat)
      requires Valid()
      modifies this
      ensures Valid() && trace == old(trace) + [BumpDb(db)]
    {
      hide ApplyAll;
      ApplyNext(UNTRACKED, trace, BumpDb(db));
      clock := clock + 1;
      dbVersions := dbVersions[db := clock];
      trace := trace + [BumpDb(db)];
    }

    /** Has the key or its database moved on since these versions were seen? */
    predicate Changed(k: DbKey, keyVersion: nat, dbVersion: nat)
      reads this
    {
      (if k in keyVersions then keyVersions[k].version else 0) != keyVersion
      || (if k.db in dbVersions then dbVersions[k.db] else 0) != dbVersion
    }
  }
}
