/**
 * The store as a pure state machine: the entry table `cache` (Go's x_cache),
 * the access-count table `count` (x_count) and the dirty flag (sched). Each
 * function is one whole store operation, run atomically under the store's
 * lock; the class in module CacheStore is proved to do exactly this.
 */
module Spec {
  import opened Wrappers
  import opened Keys
  import opened Resolver

  datatype State = State(cache: map<Key, Value>, count: map<Key, int>, dirty: bool)

  /** One element of a read or a listing (Go's cacheElt). */
  datatype Entry = Entry(key: Key, value: Value)

  /** A state after an operation, with the HTTP status code the operation returns. */
  datatype Outcome = Outcome(after: State, code: int)

  /** The result of `get`: the new state, the matching entries in candidate order, and the status code. */
  datatype Read = Read(after: State, elts: seq<Entry>, code: int)

  const OK: int := 200
  const Created: int := 201
  const NoContent: int := 204
  const NotFound: int := 404
  const Conflict: int := 409

  /** The count at which the next read evicts an entry. */
  const EvictAt: int := 99

  /** A Go map lookup: an absent key reads as the zero value. */
  function CountOf(count: map<Key, int>, k: Key): int
  {
    if k in count then count[k] else 0
  }

  /**
   * What the operations keep: every cached key has a count, and every count
   * lies in 0..99. The count table may hold keys the cache does not (see
   * PhantomCount), so the two key sets are not always equal.
   */
  predicate Valid(st: State)
    ensures Valid(st) ==> forall k :: k in st.cache ==> 0 <= CountOf(st.count, k) <= EvictAt
  {
    && st.cache.Keys <= st.count.Keys
    && forall k :: k in st.count ==> 0 <= st.count[k] <= EvictAt
  }

  /** The empty store the process starts with. */
  const Empty: State := State(map[], map[], false)

  // ---------------------------------------------------------------- create, update

  function Create(st: State, k: Key, v: Value): (r: Outcome)
    ensures r.code == Created || r.code == Conflict
    ensures r.after.cache.Keys == st.cache.Keys + {k}
    ensures Valid(st) ==> Valid(r.after)
  {
    if k !in st.cache then Outcome(State(st.cache[k := v], st.count[k := 0], true), Created)
    else Outcome(st, Conflict)
  }

  function Update(st: State, k: Key, v: Value): (r: Outcome)
    ensures r.code == NoContent || r.code == NotFound
    ensures r.after.cache.Keys == st.cache.Keys && r.after.count == st.count
    ensures Valid(st) ==> Valid(r.after)
  {
    if k in st.cache then Outcome(st.(cache := st.cache[k := v], dirty := true), NoContent)
    else Outcome(st, NotFound)
  }

  lemma CreateContract(st: State, k: Key, v: Value)
    ensures var r := Create(st, k, v);
      && (r.code == Created <==> k !in st.cache)
      && (r.code == Created ==> r.after.cache == st.cache[k := v] && r.after.count == st.count[k := 0] && r.after.dirty)
      && (r.code != Created ==> r.code == Conflict && r.after == st)
  {
  }

  lemma UpdateContract(st: State, k: Key, v: Value)
    ensures var r := Update(st, k, v);
      && (r.code == NoContent <==> k in st.cache)
      && r.after.cache.Keys == st.cache.Keys
      && r.after.count == st.count
      && (forall k' :: k' in st.cache && k' != k ==> r.after.cache[k'] == st.cache[k'])
      && (r.code == NoContent ==> r.after.cache[k] == v && r.after.dirty)
      && (r.code != NoContent ==> r.code == NotFound && r.after == st)
  {
  }

  // ---------------------------------------------------------------- get

  /**
   * One candidate of `get`: if `look` is cached, report its value under the
   * candidate `tag`, then either evict `tag` (its count is 99) or increment
   * the count of `tag`.
   */
  function Touch(st: State, elts: seq<Entry>, look: Key, tag: Key): (r: (State, seq<Entry>))
    ensures r.0.cache.Keys <= st.cache.Keys
    ensures |r.1| == |elts| + (if look in st.cache then 1 else 0) && r.1[..|elts|] == elts
    ensures Valid(st) ==> Valid(r.0)
  {
    if look !in st.cache then (st, elts)
    else
      var elts' := elts + [Entry(tag, st.cache[look])];
      var c := CountOf(st.count, tag);
      if c == EvictAt then (st.(cache := st.cache - {tag}, count := st.count - {tag}), elts')
      else (st.(count := st.count[tag := c + 1]), elts')
  }

  /** The candidates' Touch steps, in order (the last candidate is touched last). */
  function TouchAll(st: State, cs: seq<Key>): (r: (State, seq<Entry>))
    ensures r.0.cache.Keys <= st.cache.Keys && r.0.dirty == st.dirty
    ensures |r.1| <= |cs|
    decreases |cs|
  {
    if cs == [] then (st, [])
    else
      var (st', elts) := TouchAll(st, cs[..|cs| - 1]);
      var c := cs[|cs| - 1];
      Touch(st', elts, GetLookup(c), c)
  }

  /** `get` over an already resolved list of candidates. */
  function GetFrom(st: State, cs: seq<Key>): (r: Read)
    ensures r.code == OK || r.code == NotFound
    ensures r.code == OK <==> r.elts != []
    ensures r.code == OK ==> r.after.dirty
    ensures r.after.cache.Keys <= st.cache.Keys && |r.elts| <= |cs|
  {
    var (st', elts) := TouchAll(st, cs);
    if |elts| > 0 then Read(st'.(dirty := true), elts, OK)
    else Read(st', [], NotFound)
  }

  lemma TouchAllSnoc(st: State, cs: seq<Key>, c: Key)
    ensures var (st', elts) := TouchAll(st, cs);
      TouchAll(st, cs + [c]) == Touch(st', elts, GetLookup(c), c)
  {
  }

  function Get(st: State, token: string, parseFloat: string -> Option<Float>): (r: Read)
    ensures r.code == OK <==> r.elts != []
    ensures r.after.cache.Keys <= st.cache.Keys && |r.elts| <= 4
  {
    GetFrom(st, Candidates(token, parseFloat))
  }

  /**
   * Reference definition of what a read reports: one entry per candidate
   * whose lookup key is cached in `cache`, in candidate order, tagged with
   * the candidate and carrying the value stored under the lookup key.
   */
  function Matches(cache: map<Key, Value>, cs: seq<Key>): seq<Entry>
    decreases |cs|
  {
    if cs == [] then []
    else
      var c := cs[|cs| - 1];
      var prefix := Matches(cache, cs[..|cs| - 1]);
      if GetLookup(c) in cache then prefix + [Entry(c, cache[GetLookup(c)])] else prefix
  }

  lemma {:induction false} MatchesMembers(cache: map<Key, Value>, cs: seq<Key>)
    ensures forall e :: e in Matches(cache, cs) <==>
      e.key in cs && GetLookup(e.key) in cache && e.value == cache[GetLookup(e.key)]
    decreases |cs|
  {
    if cs != [] {
      MatchesMembers(cache, cs[..|cs| - 1]);
      assert cs == cs[..|cs| - 1] + [cs[|cs| - 1]];
    }
  }

  /** `k` is cached, counted and has the same count before and after. */
  predicate KeyUnchanged(st: State, st': State, k: Key)
  {
    && (k in st'.cache <==> k in st.cache)
    && (k in st'.count <==> k in st.count)
    && CountOf(st'.count, k) == CountOf(st.count, k)
  }

  /**
   * The eviction rule for one candidate `k` looked up under `look`: nothing
   * happens when `look` is not cached; otherwise a count of 99 removes `k`
   * from both tables, and any other count is incremented.
   */
  predicate TouchedKey(st: State, st': State, look: Key, k: Key)
  {
    if look !in st.cache then KeyUnchanged(st, st', k)
    else if CountOf(st.count, k) == EvictAt then k !in st'.cache && k !in st'.count
    else (k in st'.cache <==> k in st.cache) && k in st'.count && st'.count[k] == CountOf(st.count, k) + 1
  }

  lemma TouchEffect(st: State, elts: seq<Entry>, look: Key, tag: Key)
    ensures var st' := Touch(st, elts, look, tag).0;
      && st'.dirty == st.dirty
      && st'.cache.Keys <= st.cache.Keys
      && (forall k :: k in st'.cache ==> st'.cache[k] == st.cache[k])
      && (forall k :: k != tag ==> KeyUnchanged(st, st', k))
      && TouchedKey(st, st', look, tag)
  {
  }

  lemma {:induction false} TouchAllReports(st: State, cs: seq<Key>)
    requires NoLookBack(cs)
    ensures TouchAll(st, cs).1 == Matches(st.cache, cs)
    decreases |cs|
  {
    if cs != [] {
      var prefix := cs[..|cs| - 1];
      var c := cs[|cs| - 1];
      assert NoLookBack(prefix);
      TouchAllReports(st, prefix);
      TouchAllFrame(st, prefix);
      assert GetLookup(c) !in prefix by {
        forall i | 0 <= i < |prefix| ensures prefix[i] != GetLookup(c) {
          assert prefix[i] == cs[i];
        }
      }
    }
  }

  /**
   * TouchAll never changes a value or adds a key to the cache, and leaves
   * every key that is not a candidate alone.
   */
  lemma {:induction false} TouchAllFrame(st: State, cs: seq<Key>)
    ensures var st' := TouchAll(st, cs).0;
      && st'.dirty == st.dirty
      && st'.cache.Keys <= st.cache.Keys
      && (forall k :: k in st'.cache ==> st'.cache[k] == st.cache[k])
      && (forall k :: k !in cs ==> KeyUnchanged(st, st', k))
    decreases |cs|
  {
    if cs != [] {
      var prefix := cs[..|cs| - 1];
      var c := cs[|cs| - 1];
      TouchAllFrame(st, prefix);
      var (mid, elts) := TouchAll(st, prefix);
      TouchEffect(mid, elts, GetLookup(c), c);
      assert cs == prefix + [c];
    }
  }

  /** The last candidate of a read is judged on the table as it was before the read. */
  lemma TouchAllAtLast(st: State, cs: seq<Key>)
    requires NoLookBack(cs) && cs != []
    ensures TouchedKey(st, TouchAll(st, cs).0, GetLookup(cs[|cs| - 1]), cs[|cs| - 1])
  {
    var prefix := cs[..|cs| - 1];
    var c := cs[|cs| - 1];
    var (mid, elts) := TouchAll(st, prefix);
    assert c !in prefix && GetLookup(c) !in prefix by {
      forall i | 0 <= i < |prefix| ensures prefix[i] != c && prefix[i] != GetLookup(c) {
        assert prefix[i] == cs[i];
      }
    }
    TouchAllFrame(st, prefix);
    assert KeyUnchanged(st, mid, c);
    assert KeyUnchanged(st, mid, GetLookup(c));
    TouchEffect(mid, elts, GetLookup(c), c);
  }

  /** Every candidate `k` of a read goes through the eviction rule exactly once. */
  lemma {:induction false} TouchAllAt(st: State, cs: seq<Key>, k: Key)
    requires NoLookBack(cs) && k in cs
    ensures TouchedKey(st, TouchAll(st, cs).0, GetLookup(k), k)
    decreases |cs|
  {
    var prefix := cs[..|cs| - 1];
    var c := cs[|cs| - 1];
    if k == c {
      TouchAllAtLast(st, cs);
    } else {
      assert NoLookBack(prefix);
      assert cs == prefix + [c];
      assert k in prefix;
      TouchAllAt(st, prefix, k);
      var (mid, elts) := TouchAll(st, prefix);
      TouchEffect(mid, elts, GetLookup(c), c);
    }
  }

  /** A read none of whose candidates is cached changes nothing and reports nothing. */
  lemma {:induction false} TouchAllMiss(st: State, cs: seq<Key>)
    requires forall c :: c in cs ==> GetLookup(c) !in st.cache
    ensures TouchAll(st, cs) == (st, [])
    decreases |cs|
  {
    if cs != [] {
      assert cs == cs[..|cs| - 1] + [cs[|cs| - 1]];
      TouchAllMiss(st, cs[..|cs| - 1]);
    }
  }

  /** The contract of a read over any candidate list without look-back. */
  lemma GetFromContract(st: State, cs: seq<Key>)
    requires NoLookBack(cs)
    ensures var r := GetFrom(st, cs);
      && r.elts == Matches(st.cache, cs)
      && (r.code == OK <==> exists c :: c in cs && GetLookup(c) in st.cache)
      && (r.code != OK ==> r.code == NotFound && r.after == st)
      && (r.code == OK ==> r.after.dirty)
  {
    TouchAllReports(st, cs);
    MatchesMembers(st.cache, cs);
    if c :| c in cs && GetLookup(c) in st.cache {
      assert Entry(c, st.cache[GetLookup(c)]) in Matches(st.cache, cs);
    } else {
      TouchAllMiss(st, cs);
    }
  }

  /**
   * The state-level contract of `get`: it reports one entry per cached
   * candidate in resolution order (Matches), answers 200 exactly when some
   * candidate is cached, and otherwise answers 404 and changes nothing,
   * not even the dirty flag.
   */
  lemma GetContract(st: State, token: string, parseFloat: string -> Option<Float>)
    ensures var r := Get(st, token, parseFloat);
      var cs := Candidates(token, parseFloat);
      && r.elts == Matches(st.cache, cs)
      && (r.code == OK <==> exists c :: c in cs && GetLookup(c) in st.cache)
      && (r.code != OK ==> r.code == NotFound && r.after == st)
      && (r.code == OK ==> r.after.dirty)
  {
    CandidatesNoLookBack(token, parseFloat);
    GetFromContract(st, Candidates(token, parseFloat));
  }

  /**
   * The whole new state of a read over a candidate list without look-back:
   * no key is added and no value changes, keys that are not candidates keep
   * their place and count, every candidate goes through the eviction rule
   * once, and the dirty flag is set exactly on a 200 answer.
   */
  lemma GetFromState(st: State, cs: seq<Key>)
    requires NoLookBack(cs)
    ensures var r := GetFrom(st, cs);
      && r.after.cache.Keys <= st.cache.Keys
      && (forall k :: k in r.after.cache ==> r.after.cache[k] == st.cache[k])
      && (forall k :: k !in cs ==> KeyUnchanged(st, r.after, k))
      && (forall k :: k in cs ==> TouchedKey(st, r.after, GetLookup(k), k))
      && (r.after.dirty <==> st.dirty || r.code == OK)
  {
    TouchAllFrame(st, cs);
    forall k | k in cs ensures TouchedKey(st, TouchAll(st, cs).0, GetLookup(k), k) {
      TouchAllAt(st, cs, k);
    }
  }

  /** The whole new state of `get` for the real candidates of any token. */
  lemma GetState(st: State, token: string, parseFloat: string -> Option<Float>)
    ensures var r := Get(st, token, parseFloat);
      var cs := Candidates(token, parseFloat);
      && r.after.cache.Keys <= st.cache.Keys
      && (forall k :: k in r.after.cache ==> r.after.cache[k] == st.cache[k])
      && (forall k :: k !in cs ==> KeyUnchanged(st, r.after, k))
      && (forall k :: k in cs ==> TouchedKey(st, r.after, GetLookup(k), k))
      && (r.after.dirty <==> st.dirty || r.code == OK)
  {
    CandidatesNoLookBack(token, parseFloat);
    GetFromState(st, Candidates(token, parseFloat));
  }

  lemma {:induction false} TouchAllPreservesValid(st: State, cs: seq<Key>)
    requires Valid(st)
    ensures Valid(TouchAll(st, cs).0)
    decreases |cs|
  {
    if cs != [] {
      TouchAllPreservesValid(st, cs[..|cs| - 1]);
    }
  }

  lemma GetPreservesValid(st: State, token: string, parseFloat: string -> Option<Float>)
    requires Valid(st)
    ensures Valid(Get(st, token, parseFloat).after)
  {
    TouchAllPreservesValid(st, Candidates(token, parseFloat));
  }

  /**
   * A read of a cached key that the token names directly (a string, float or
   * boolean candidate) returns its value and applies the eviction rule to it.
   */
  lemma GetDirect(st: State, cs: seq<Key>, k: Key)
    requires NoLookBack(cs) && k in cs && !k.Int64? && k in st.cache
    ensures var r := GetFrom(st, cs);
      && r.code == OK
      && Entry(k, st.cache[k]) in r.elts
      && TouchedKey(st, r.after, k, k)
      && (k in r.after.cache ==> r.after.cache[k] == st.cache[k])
  {
    GetFromContract(st, cs);
    MatchesMembers(st.cache, cs);
    TouchAllAt(st, cs, k);
    TouchAllFrame(st, cs);
  }

  /**
   * A read through the integer candidate looks the key up as a Go `int`
   * but reports it, counts it and evicts it as an `int64`: the `int` entry
   * itself keeps its value and its count.
   */
  lemma GetIntKey(st: State, token: string, parseFloat: string -> Option<Float>, n: int)
    requires ParseInt(token) == Some(n) && Int(n) in st.cache
    ensures var r := Get(st, token, parseFloat);
      && r.code == OK
      && Entry(Int64(n), st.cache[Int(n)]) in r.elts
      && TouchedKey(st, r.after, Int(n), Int64(n))
      && Int(n) in r.after.cache && r.after.cache[Int(n)] == st.cache[Int(n)]
      && KeyUnchanged(st, r.after, Int(n))
  {
    var cs := Candidates(token, parseFloat);
    CandidatesNoLookBack(token, parseFloat);
    GetContract(st, token, parseFloat);
    MatchesMembers(st.cache, cs);
    TouchAllAt(st, cs, Int64(n));
    TouchAllFrame(st, cs);
  }

  /**
   * The count table can hold a key the cache does not: reading an `int`
   * entry creates a count under the matching `int64` key.
   */
  lemma PhantomCount(v: Value, parseFloat: string -> Option<Float>)
    ensures var st := Create(Empty, Int(5), v).after;
      var after := Get(st, "5", parseFloat).after;
      && Valid(st) && st.cache.Keys == st.count.Keys
      && Int64(5) in after.count && Int64(5) !in after.cache
      && after.cache.Keys != after.count.Keys
  {
    assert ParseInt("5") == Some(5) by { assert "5"[..0] == ""; }
    var st := Create(Empty, Int(5), v).after;
    GetIntKey(st, "5", parseFloat, 5);
  }

  /** `n` reads of the same token (resolved to `cs`), one after the other. */
  function Reads(st: State, cs: seq<Key>, n: nat): State
  {
    if n == 0 then st else GetFrom(Reads(st, cs, n - 1), cs).after
  }

  /** Reads never add a key to the cache. */
  lemma {:induction false} ReadsShrink(st: State, cs: seq<Key>, n: nat)
    ensures Reads(st, cs, n).cache.Keys <= st.cache.Keys
  {
    if n > 0 {
      ReadsShrink(st, cs, n - 1);
      TouchAllFrame(Reads(st, cs, n - 1), cs);
    }
  }

  /** A key that has left the cache after `m` reads is absent after any later number of reads. */
  lemma {:induction false} ReadsStayEvicted(st: State, cs: seq<Key>, k: Key, m: nat, n: nat)
    requires m <= n && k !in Reads(st, cs, m).cache
    ensures k !in Reads(st, cs, n).cache
    decreases n
  {
    if n > m {
      ReadsStayEvicted(st, cs, k, m, n - 1);
    }
  }

  /** Until its count reaches 99, a directly named entry survives every read, one count higher each time. */
  lemma {:induction false} ReadsBeforeEviction(st: State, cs: seq<Key>, k: Key, n: nat)
    requires NoLookBack(cs) && k in cs && !k.Int64? && k in st.cache
    requires CountOf(st.count, k) + n <= EvictAt
    ensures var st' := Reads(st, cs, n);
      k in st'.cache && st'.cache[k] == st.cache[k] && CountOf(st'.count, k) == CountOf(st.count, k) + n
  {
    if n > 0 {
      ReadsBeforeEviction(st, cs, k, n - 1);
      GetDirect(Reads(st, cs, n - 1), cs, k);
    }
  }

  /**
   * The life of a freshly created string, float or boolean key under
   * repeated reads of a token that resolves to `cs` and names it: reads 1 to
   * 99 return the value and leave the entry with that many counts, read 100
   * still returns the value but evicts the entry from both tables, and no
   * later read returns it.
   */
  lemma CreatedKeyLifetime(st: State, cs: seq<Key>, k: Key, v: Value, n: nat)
    requires NoLookBack(cs) && k in cs && !k.Int64? && k !in st.cache
    ensures var r := GetFrom(Reads(Create(st, k, v).after, cs, n), cs);
      && (n < 100 ==> r.code == OK && Entry(k, v) in r.elts)
      && (n < 99 ==> k in r.after.cache && k in r.after.count && r.after.count[k] == n + 1)
      && (n == 99 ==> k !in r.after.cache && k !in r.after.count)
      && (n >= 100 ==> forall e :: e in r.elts ==> e.key != k)
  {
    var s0 := Create(st, k, v).after;
    if n < 100 {
      ReadsBeforeEviction(s0, cs, k, n);
      GetDirect(Reads(s0, cs, n), cs, k);
    } else {
      ReadsBeforeEviction(s0, cs, k, 99);
      GetDirect(Reads(s0, cs, 99), cs, k);
      assert k !in Reads(s0, cs, 100).cache;
      ReadsStayEvicted(s0, cs, k, 100, n);
      var sn := Reads(s0, cs, n);
      assert k !in sn.cache;
      GetFromContract(sn, cs);
      MatchesMembers(sn.cache, cs);
    }
  }

  /** CreatedKeyLifetime for the candidates `get` actually resolves a token to. */
  lemma CreatedKeyLifetimeOfToken(st: State, token: string, parseFloat: string -> Option<Float>, k: Key, v: Value, n: nat)
    requires k in Candidates(token, parseFloat) && !k.Int64? && k !in st.cache
    ensures var cs := Candidates(token, parseFloat);
      var r := GetFrom(Reads(Create(st, k, v).after, cs, n), cs);
      && (n < 100 ==> r.code == OK && Entry(k, v) in r.elts)
      && (n < 99 ==> k in r.after.cache && k in r.after.count && r.after.count[k] == n + 1)
      && (n == 99 ==> k !in r.after.cache && k !in r.after.count)
      && (n >= 100 ==> forall e :: e in r.elts ==> e.key != k)
  {
    var cs := Candidates(token, parseFloat);
    CandidatesNoLookBack(token, parseFloat);
    CreatedKeyLifetime(st, cs, k, v, n);
  }

  // ---------------------------------------------------------------- rm

  /** One candidate of `rm`: a cached key goes from both tables, whatever its count. */
  function Drop(st: State, found: bool, k: Key): (r: (State, bool))
    ensures r.0.cache == st.cache - {k} && r.0.dirty == st.dirty
    ensures r.1 <==> found || k in st.cache
    ensures Valid(st) ==> Valid(r.0)
  {
    if k in st.cache then (st.(cache := st.cache - {k}, count := st.count - {k}), true)
    else (st, found)
  }

  function DropAll(st: State, found: bool, cs: seq<Key>): (r: (State, bool))
    ensures r.0.cache.Keys <= st.cache.Keys && r.0.dirty == st.dirty
    ensures found ==> r.1
    ensures Valid(st) ==> Valid(r.0)
    decreases |cs|
  {
    if cs == [] then (st, found)
    else
      var (st', found') := DropAll(st, found, cs[..|cs| - 1]);
      Drop(st', found', cs[|cs| - 1])
  }

  /**
   * `rm`: the empty token first replaces both tables by empty ones; then
   * every candidate of the token that is cached is removed.
   */
  function Rm(st: State, token: string, parseFloat: string -> Option<Float>): (r: Outcome)
    ensures r.code == NoContent || r.code == NotFound
    ensures r.code == NoContent ==> r.after.dirty
    ensures token == "" ==> r.code == NoContent && r.after.cache == map[]
    ensures r.after.cache.Keys <= st.cache.Keys
    ensures Valid(st) ==> Valid(r.after)
  {
    var start := if token == "" then st.(cache := map[], count := map[]) else st;
    var (st', found) := DropAll(start, token == "", Candidates(token, parseFloat));
    if found then Outcome(st'.(dirty := true), NoContent) else Outcome(st', NotFound)
  }

  lemma DropAllSnoc(st: State, found: bool, cs: seq<Key>, c: Key)
    ensures var (st', found') := DropAll(st, found, cs);
      DropAll(st, found, cs + [c]) == Drop(st', found', c)
  {
  }

  /** The cached keys among `cs`. */
  function CachedAmong(cache: map<Key, Value>, cs: seq<Key>): set<Key>
  {
    set c | c in cs && c in cache
  }

  lemma {:induction false} DropAllEffect(st: State, found: bool, cs: seq<Key>)
    ensures var K := CachedAmong(st.cache, cs);
      DropAll(st, found, cs) == (st.(cache := st.cache - K, count := st.count - K), found || K != {})
    decreases |cs|
  {
    if cs == [] {
      assert CachedAmong(st.cache, cs) == {};
      assert st.cache - {} == st.cache && st.count - {} == st.count;
    } else {
      var prefix := cs[..|cs| - 1];
      var c := cs[|cs| - 1];
      assert cs == prefix + [c];
      DropAllEffect(st, found, prefix);
      var Kp := CachedAmong(st.cache, prefix);
      var K := CachedAmong(st.cache, cs);
      if c in st.cache && c !in Kp {
        assert K == Kp + {c};
        assert st.cache - Kp - {c} == st.cache - K;
        assert st.count - Kp - {c} == st.count - K;
      } else {
        assert K == Kp;
      }
    }
  }

  /** The state-level contract of `rm`. */
  lemma RmContract(st: State, token: string, parseFloat: string -> Option<Float>)
    ensures var r := Rm(st, token, parseFloat);
      var K := CachedAmong(st.cache, Candidates(token, parseFloat));
      && (token == "" ==> r.after == State(map[], map[], true) && r.code == NoContent)
      && (token != "" ==> r.after.cache == st.cache - K && r.after.count == st.count - K)
      && (token != "" ==> (r.code == NoContent <==> K != {}))
      && (r.code != NoContent ==> r.code == NotFound && r.after == st)
      && (r.code == NoContent ==> r.after.dirty)
  {
    var cs := Candidates(token, parseFloat);
    if token == "" {
      DropAllEffect(st.(cache := map[], count := map[]), true, cs);
      assert CachedAmong(map[], cs) == {};
      var noEntries: map<Key, Value> := map[];
      var noCounts: map<Key, int> := map[];
      assert noEntries - {} == noEntries && noCounts - {} == noCounts;
    } else {
      DropAllEffect(st, false, cs);
      var K := CachedAmong(st.cache, cs);
      if K == {} {
        assert st.cache - K == st.cache && st.count - K == st.count;
      }
    }
  }

  lemma RmPreservesValid(st: State, token: string, parseFloat: string -> Option<Float>)
    requires Valid(st)
    ensures Valid(Rm(st, token, parseFloat).after)
  {
    RmContract(st, token, parseFloat);
  }

  /** Neither `get` nor `rm` of a non-empty token ever removes or changes an `int` entry. */
  lemma IntEntriesSurvive(st: State, token: string, parseFloat: string -> Option<Float>, n: int)
    requires Int(n) in st.cache
    ensures var g := Get(st, token, parseFloat).after;
      Int(n) in g.cache && g.cache[Int(n)] == st.cache[Int(n)] && KeyUnchanged(st, g, Int(n))
    ensures token != "" ==> var d := Rm(st, token, parseFloat).after;
      Int(n) in d.cache && d.cache[Int(n)] == st.cache[Int(n)] && KeyUnchanged(st, d, Int(n))
  {
    TouchAllFrame(st, Candidates(token, parseFloat));
    RmContract(st, token, parseFloat);
  }

  // ---------------------------------------------------------------- round trips

  /** Matches reports a cached first candidate first. */
  lemma {:induction false} MatchesHead(cache: map<Key, Value>, cs: seq<Key>)
    requires cs != [] && GetLookup(cs[0]) in cache
    ensures Matches(cache, cs) != [] && Matches(cache, cs)[0] == Entry(cs[0], cache[GetLookup(cs[0])])
    decreases |cs|
  {
    if |cs| > 1 {
      MatchesHead(cache, cs[..|cs| - 1]);
    }
  }

  /** A string key created and then read by its own text comes back first, with its value. */
  lemma CreateThenGetString(st: State, s: string, v: Value, parseFloat: string -> Option<Float>)
    requires Str(s) !in st.cache
    ensures var r := Get(Create(st, Str(s), v).after, s, parseFloat);
      r.code == OK && r.elts != [] && r.elts[0] == Entry(Str(s), v)
  {
    var st' := Create(st, Str(s), v).after;
    GetContract(st', s, parseFloat);
    MatchesHead(st'.cache, Candidates(s, parseFloat));
  }

  /** Candidates after a prefix whose lookup keys are not cached add nothing to a read's report. */
  lemma {:induction false} MatchesMissTail(cache: map<Key, Value>, cs: seq<Key>, rest: seq<Key>)
    requires forall c :: c in rest ==> GetLookup(c) !in cache
    ensures Matches(cache, cs + rest) == Matches(cache, cs)
    decreases |rest|
  {
    if rest != [] {
      var last := rest[|rest| - 1];
      assert (cs + rest)[..|cs + rest| - 1] == cs + rest[..|rest| - 1];
      assert last in rest;
      MatchesMissTail(cache, cs, rest[..|rest| - 1]);
    } else {
      assert cs + rest == cs;
    }
  }

  /** An integer token's candidates: its string, its int64, then non-integer kinds only. */
  lemma IntTokenCandidates(token: string, n: int, parseFloat: string -> Option<Float>)
    requires ParseInt(token) == Some(n)
    ensures var cs := Candidates(token, parseFloat);
      |cs| >= 2 && cs[0] == Str(token) && cs[1] == Int64(n)
      && forall j :: 2 <= j < |cs| ==> cs[j].F64? || cs[j].Bool?
  {
  }

  /** Two cached entries, reached by the first two candidates, are all a read reports. */
  lemma {:induction false} MatchesFirstTwo(cache: map<Key, Value>, cs: seq<Key>)
    requires |cs| >= 2 && cache.Keys == {GetLookup(cs[0]), GetLookup(cs[1])}
    requires GetLookup(cs[0]) != GetLookup(cs[1])
    requires forall j :: 2 <= j < |cs| ==> GetLookup(cs[j]) !in cache
    ensures Matches(cache, cs) == [Entry(cs[0], cache[GetLookup(cs[0])]), Entry(cs[1], cache[GetLookup(cs[1])])]
  {
    var two := cs[..2];
    var rest := cs[2..];
    assert cs == two + rest;
    forall c | c in rest ensures GetLookup(c) !in cache {
      var j :| 0 <= j < |rest| && rest[j] == c;
      assert cs[j + 2] == c;
    }
    MatchesMissTail(cache, two, rest);
    assert two[..1] == [cs[0]];
    assert [cs[0]][..0] == [];
    assert Matches(cache, [cs[0]]) == [Entry(cs[0], cache[GetLookup(cs[0])])];
    assert Matches(cache, two) == Matches(cache, [cs[0]]) + [Entry(cs[1], cache[GetLookup(cs[1])])];
  }

  /**
   * The string key of an integer token's text and the int key of its value
   * are independent: a read of the token returns both, the string first and
   * the int tagged as an int64.
   */
  lemma CrossTypeRead(st: State, token: string, n: int, v1: Value, v2: Value, parseFloat: string -> Option<Float>)
    requires ParseInt(token) == Some(n)
    requires st.cache == map[Str(token) := v1, Int(n) := v2]
    ensures Get(st, token, parseFloat).elts == [Entry(Str(token), v1), Entry(Int64(n), v2)]
  {
    var cs := Candidates(token, parseFloat);
    IntTokenCandidates(token, n, parseFloat);
    forall j | 2 <= j < |cs| ensures GetLookup(cs[j]) !in st.cache {
      assert cs[j].F64? || cs[j].Bool?;
    }
    MatchesFirstTwo(st.cache, cs);
    CandidatesNoLookBack(token, parseFloat);
    GetFromContract(st, cs);
  }

  /**
   * Deleting by an integer token from a store that holds the string key of
   * that text and the int key of that value removes the string only: `rm`
   * looks integers up as int64.
   */
  lemma CrossTypeDelete(st: State, token: string, n: int, v1: Value, v2: Value, parseFloat: string -> Option<Float>)
    requires ParseInt(token) == Some(n)
    requires st.cache == map[Str(token) := v1, Int(n) := v2]
    ensures var r := Rm(st, token, parseFloat);
      r.code == NoContent && r.after.cache == map[Int(n) := v2]
  {
    var cs := Candidates(token, parseFloat);
    forall c | c in cs ensures c in st.cache <==> c == Str(token) {
      assert !c.Int?;
    }
    assert CachedAmong(st.cache, cs) == {Str(token)};
    RmContract(st, token, parseFloat);
    assert st.cache - {Str(token)} == map[Int(n) := v2];
  }

  // ---------------------------------------------------------------- listing, persistence flag

  /** `elts` lists `cache`: one entry per key, carrying that key's value. */
  ghost predicate Flattened(cache: map<Key, Value>, elts: seq<Entry>)
  {
    && |elts| == |cache|
    && (forall i :: 0 <= i < |elts| ==> elts[i].key in cache && elts[i].value == cache[elts[i].key])
    && (forall i, j :: 0 <= i < j < |elts| ==> elts[i].key != elts[j].key)
    && (forall k :: k in cache ==> exists i :: 0 <= i < |elts| && elts[i].key == k)
  }

  /**
   * The persister's test-and-clear (an atomic compare-and-swap of 1 to 0):
   * reports whether the store was dirty and leaves it clean.
   */
  function TakeDirty(st: State): (r: (State, bool))
    ensures r.1 == st.dirty && !r.0.dirty
    ensures r.0.cache == st.cache && r.0.count == st.count
  {
    (st.(dirty := false), st.dirty)
  }
}
