/** The cache of Lua scripts: a map by hash, first in first out under two caps. */
module LuaCache {
  import opened Bytes

  const MAX_LUA_SCRIPT_BYTES: nat := 16 * 1024 * 1024
  const MAX_LUA_SCRIPT_CACHE_BYTES: nat := 64 * 1024 * 1024
  const MAX_LUA_SCRIPT_CACHE_ENTRIES: nat := 10_000

  type Sha = bytes

  ghost predicate Listed(order: seq<Sha>, scripts: map<Sha, bytes>) {
    forall i :: 0 <= i < |order| ==> order[i] in scripts
  }

  /** Bytes held by the listed scripts. */
  ghost function Held(order: seq<Sha>, scripts: map<Sha, bytes>): nat
    requires Listed(order, scripts)
  {
    if order == [] then 0 else |scripts[order[0]]| + Held(order[1..], scripts)
  }

  lemma {:induction false} HeldOnly(order: seq<Sha>, scripts: map<Sha, bytes>, others: map<Sha, bytes>)
    requires forall i :: 0 <= i < |order| ==>
               order[i] in scripts && order[i] in others && scripts[order[i]] == others[order[i]]
    ensures Held(order, scripts) == Held(order, others)
    decreases |order|
  {
    if order != [] {
      assert order[0] in scripts;
      HeldOnly(order[1..], scripts, others);
    }
  }

  lemma {:induction false} HeldAppend(order: seq<Sha>, last: Sha, scripts: map<Sha, bytes>)
    requires last in scripts && Listed(order, scripts)
    ensures Held(order + [last], scripts) == Held(order, scripts) + |scripts[last]|
    decreases |order|
  {
    if order == [] {
      assert order + [last] == [last];
    } else {
      assert (order + [last])[1..] == order[1..] + [last];
      HeldAppend(order[1..], last, scripts);
    }
  }

  ghost predicate Distinct(order: seq<Sha>) {
    forall i, j :: 0 <= i < j < |order| ==> order[i] != order[j]
  }

  /** Queue and map hold the same hashes, each once. */
  ghost predicate SameHashes(order: seq<Sha>, scripts: map<Sha, bytes>) {
    && Distinct(order)
    && Listed(order, scripts)
    && (forall h :: h in scripts ==> h in order)
  }

  /** Evicting the oldest hash keeps queue and map in step and frees its bytes. */
  lemma AfterEviction(order: seq<Sha>, scripts: map<Sha, bytes>)
    requires order != [] && SameHashes(order, scripts)
    ensures order[0] in scripts && SameHashes(order[1..], scripts - {order[0]})
    ensures Held(order, scripts) == |scripts[order[0]]| + Held(order[1..], scripts - {order[0]})
  {
    forall h | h in scripts - {order[0]} ensures h in order[1..] {
      assert h in order;
    }
    HeldOnly(order[1..], scripts, scripts - {order[0]});
  }

  lemma NoHashes(scripts: map<Sha, bytes>)
    requires SameHashes([], scripts)
    ensures |scripts| == 0
  {
    assert scripts == map[];
  }

  lemma OneFewer(scripts: map<Sha, bytes>, sha: Sha)
    requires sha in scripts
    ensures |scripts| == |scripts - {sha}| + 1
  {
    assert scripts.Keys == (scripts - {sha}).Keys + {sha};
  }

  lemma {:induction false} SameCount(order: seq<Sha>, scripts: map<Sha, bytes>)
    requires SameHashes(order, scripts)
    ensures |scripts| == |order|
    decreases |order|
  {
    hide SameHashes;
    if order == [] {
      NoHashes(scripts);
    } else {
      AfterEviction(order, scripts);
      SameCount(order[1..], scripts - {order[0]});
      OneFewer(scripts, order[0]);
    }
  }

  lemma AfterInsertion(order: seq<Sha>, scripts: map<Sha, bytes>, sha: Sha, script: bytes)
    requires SameHashes(order, scripts) && sha !in scripts
    ensures SameHashes(order + [sha], scripts[sha := script])
    ensures Held(order + [sha], scripts[sha := script]) == Held(order, scripts) + |script|
    ensures |scripts[sha := script]| == |order| + 1
  {
    var more := scripts[sha := script];
    forall h | h in more ensures h in order + [sha] {
      if h != sha { assert h in order; }
    }
    HeldAppend(order, sha, more);
    HeldOnly(order, scripts, more);
    SameCount(order + [sha], more);
  }

  /** The script fits behind the listed ones. */
  ghost predicate Fits(order: seq<Sha>, scripts: map<Sha, bytes>, len: nat)
    requires Listed(order, scripts)
  {
    |order| < MAX_LUA_SCRIPT_CACHE_ENTRIES && Held(order, scripts) + len <= MAX_LUA_SCRIPT_CACHE_BYTES
  }

  /** The invariant: queue and map in step, exact byte count, both caps, and the queue is the
      tail of what was inserted. */
  ghost predicate Consistent(hash: bytes -> Sha, scripts: map<Sha, bytes>, order: seq<Sha>, held: nat,
                             history: seq<bytes>)
  {
    && SameHashes(order, scripts)
    && held == Held(order, scripts) <= MAX_LUA_SCRIPT_CACHE_BYTES
    && |scripts| == |order| <= MAX_LUA_SCRIPT_CACHE_ENTRIES
    && Recent(order, scripts, history)
    && (forall h :: h in scripts ==> hash(scripts[h]) == h)
  }

  /** The queue lists the most recently inserted scripts, oldest first. */
  ghost predicate Recent(order: seq<Sha>, scripts: map<Sha, bytes>, history: seq<bytes>)
    requires Listed(order, scripts)
  {
    |order| <= |history| &&
    forall i :: 0 <= i < |order| ==> scripts[order[i]] == history[|history| - |order| + i]
  }

  lemma RecentAfterEviction(order: seq<Sha>, scripts: map<Sha, bytes>, history: seq<bytes>)
    requires order != [] && Listed(order, scripts) && Distinct(order) && Recent(order, scripts, history)
    ensures Listed(order[1..], scripts - {order[0]}) && Recent(order[1..], scripts - {order[0]}, history)
  {
  }

  lemma EvictionIsConsistent(hash: bytes -> Sha, scripts: map<Sha, bytes>, order: seq<Sha>, held: nat,
                             history: seq<bytes>)
    requires Consistent(hash, scripts, order, held, history) && order != []
    ensures order[0] in scripts && |scripts[order[0]]| <= held
    ensures Consistent(hash, scripts - {order[0]}, order[1..], held - |scripts[order[0]]|, history)
  {
    hide Recent;
    hide Held;
    AfterEviction(order, scripts);
    RecentAfterEviction(order, scripts, history);
    OneFewer(scripts, order[0]);
  }

  lemma InsertionIsConsistent(hash: bytes -> Sha, scripts: map<Sha, bytes>, order: seq<Sha>, held: nat,
                              history: seq<bytes>, script: bytes)
    requires Consistent(hash, scripts, order, held, history) && hash(script) !in scripts
    requires |order| < MAX_LUA_SCRIPT_CACHE_ENTRIES && held + |script| <= MAX_LUA_SCRIPT_CACHE_BYTES
    ensures Consistent(hash, scripts[hash(script) := script], order + [hash(script)], held + |script|,
                       history + [script])
  {
    hide Held;
    hide SameHashes;
    hide Recent;
    AfterInsertion(order, scripts, hash(script), script);
    RecentAfterInsertion(order, scripts, history, hash(script), script);
  }

  lemma RecentAfterInsertion(order: seq<Sha>, scripts: map<Sha, bytes>, history: seq<bytes>, sha: Sha, script: bytes)
    requires SameHashes(order, scripts) && sha !in scripts && Recent(order, scripts, history)
    ensures Listed(order + [sha], scripts[sha := script])
            && Recent(order + [sha], scripts[sha := script], history + [script])
  {
  }

  /** With no script left to evict there is room for any script of legal size. */
  lemma EmptyHasRoom(hash: bytes -> Sha, scripts: map<Sha, bytes>, order: seq<Sha>, held: nat, history: seq<bytes>)
    requires Consistent(hash, scripts, order, held, history)
    ensures |scripts| == |order| && held <= MAX_LUA_SCRIPT_CACHE_BYTES && Listed(order, scripts)
    ensures held == Held(order, scripts)
    ensures order == [] ==> held == 0
  {
  }

  class LuaScriptCache {
    const hash: bytes -> Sha
    var scripts: map<Sha, bytes>
    var insertionOrder: seq<Sha>
    var bytes: nat
    /** The scripts inserted since the last flush, oldest first. */
    ghost var history: seq<bytes>

    ghost predicate Valid()
      reads this
    {
      Consistent(hash, scripts, insertionOrder, bytes, history)
    }

    /** The last of the inserted scripts, as many as are cached. */
    ghost function Survivors(): seq<bytes>
      requires Valid()
      reads this
    {
      history[|history| - |insertionOrder|..]
    }

    constructor (hash: bytes -> Sha)
      ensures Valid() && scripts == map[] && history == [] && this.hash == hash
    {
      this.hash := hash;
      scripts, insertionOrder, bytes, history := map[], [], 0, [];
    }

    /** Loading keeps the cache valid; the oldest scripts go, no more of them than needed, and the
        loaded script (or one that collides with it) is there afterwards. */
    method Load(script: bytes) returns (r: Option<Sha>)
      requires Valid()
      modifies this
      ensures Valid()
      ensures r.None? <==> |script| > MAX_LUA_SCRIPT_BYTES
      ensures r.Some? ==> r.value == hash(script) && r.value in scripts && hash(scripts[r.value]) == r.value
      ensures r.None? || old(hash(script) in scripts) ==>
                scripts == old(scripts) && insertionOrder == old(insertionOrder) && history == old(history)
      ensures r.Some? && old(hash(script) !in scripts) ==>
                && history == old(history) + [script] && scripts[r.value] == script
                && exists k: nat :: EvictedFirst(old(insertionOrder), old(scripts), k, |script|)
                                    && insertionOrder == old(insertionOrder)[k..] + [r.value]
    {
      hide SameHashes;
      hide EvictedFirst;
      if |script| > MAX_LUA_SCRIPT_BYTES {
        return None;
      }
      var sha := hash(script);
      if sha in scripts {
        return Some(sha);
      }
      ghost var k := MakeRoom(|script|);
      InsertionIsConsistent(hash, scripts, insertionOrder, bytes, history, script);
      bytes := bytes + |script|;
      insertionOrder := insertionOrder + [sha];
      scripts := scripts[sha := script];
      history := history + [script];
      return Some(sha);
    }

    /** The eviction loop. It never runs out of scripts to evict while a cap is still violated. */
    method MakeRoom(len: nat) returns (ghost k: nat)
      requires Valid() && len <= MAX_LUA_SCRIPT_BYTES
      modifies this
      ensures Valid() && history == old(history)
      ensures EvictedFirst(old(insertionOrder), old(scripts), k, len)
      ensures insertionOrder == old(insertionOrder)[k..] && scripts.Keys <= old(scripts.Keys)
      ensures |insertionOrder| < MAX_LUA_SCRIPT_CACHE_ENTRIES && bytes + len <= MAX_LUA_SCRIPT_CACHE_BYTES
    {
      hide Consistent;
      hide Held;
      k := 0;
      EmptyHasRoom(hash, scripts, insertionOrder, bytes, history);
      while |scripts| >= MAX_LUA_SCRIPT_CACHE_ENTRIES || bytes + len > MAX_LUA_SCRIPT_CACHE_BYTES
        invariant Valid() && history == old(history)
        invariant k <= |old(insertionOrder)| && insertionOrder == old(insertionOrder)[k..]
        invariant scripts.Keys <= old(scripts.Keys)
        invariant forall h :: h in scripts ==> scripts[h] == old(scripts)[h]
        invariant TooFull(old(insertionOrder), old(scripts), k, len)
        decreases |insertionOrder|
      {
        EmptyHasRoom(hash, scripts, insertionOrder, bytes, history);
        HeldOnly(insertionOrder, scripts, old(scripts));
        EvictionIsConsistent(hash, scripts, insertionOrder, bytes, history);
        var evicted := insertionOrder[0];
        bytes := bytes - |scripts[evicted]|;
        scripts := scripts - {evicted};
        insertionOrder := insertionOrder[1..];
        k := k + 1;
      }
      EmptyHasRoom(hash, scripts, insertionOrder, bytes, history);
      HeldOnly(insertionOrder, scripts, old(scripts));
    }

    /** Finds exactly the scripts that survive from the insertions since the last flush. */
    method Get(sha: Sha) returns (r: Option<bytes>)
      requires Valid()
      ensures r.Some? ==> hash(r.value) == sha && r.value in Survivors()
      ensures r.None? ==> forall script :: script in Survivors() ==> hash(script) != sha
      ensures r.Some? <==> sha in scripts
    {
      hide Held;
      ghost var survivors := Survivors();
      forall script | script in survivors
        ensures hash(script) in scripts
      {
        var i :| 0 <= i < |survivors| && survivors[i] == script;
        assert scripts[insertionOrder[i]] == script;
      }
      if sha in scripts {
        ghost var i :| 0 <= i < |insertionOrder| && insertionOrder[i] == sha;
        assert survivors[i] == scripts[sha];
      }
      r := if sha in scripts then Some(scripts[sha]) else None;
    }

    method Flush()
      modifies this
      ensures Valid() && scripts == map[] && history == []
    {
      scripts, insertionOrder, bytes, history := map[], [], 0, [];
    }
  }

  /** Evicting fewer than `k` scripts does not make room. */
  ghost predicate TooFull(order: seq<Sha>, scripts: map<Sha, bytes>, k: nat, len: nat)
    requires k <= |order| && Listed(order, scripts)
  {
    forall j :: 0 <= j < k ==> !Fits(order[j..], scripts, len)
  }

  /** `k` is the least number of oldest scripts whose eviction makes room. */
  ghost predicate EvictedFirst(order: seq<Sha>, scripts: map<Sha, bytes>, k: nat, len: nat) {
    && k <= |order|
    && Listed(order, scripts)
    && Fits(order[k..], scripts, len)
    && TooFull(order, scripts, k, len)
  }

  /** With a hash that has no collisions, a loaded script is found under its hash. */
  method LoadThenGet(cache: LuaScriptCache, script: bytes) returns (r: Option<bytes>)
    requires cache.Valid() && |script| <= MAX_LUA_SCRIPT_BYTES
    requires forall other :: cache.hash(other) == cache.hash(script) ==> other == script
    modifies cache
    ensures cache.Valid() && r == Some(script)
  {
    var sha := cache.Load(script);
    r := cache.Get(sha.value);
  }
}
