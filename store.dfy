/**
 * The cache store as the program keeps it: two tables updated in place and
 * a dirty flag for the persister. Every method is one whole store
 * operation (the program runs each under one mutex) and is proved to do
 * exactly what the corresponding function of module Spec describes.
 */
module CacheStore {
  import opened Wrappers
  import opened Keys
  import opened Resolver
  import Spec

  class Store {
    /** Entry table: key to value. */
    var cache: map<Key, Value>
    /** Access-count table: key to the number of reads so far. */
    var count: map<Key, int>
    /** Set by every change, cleared by the persister's test-and-clear. */
    var dirty: bool
    /** strconv.ParseFloat(token, 64), which this model does not define. */
    const parseFloat: string -> Option<Float>

    function State(): Spec.State
      reads this
    {
      Spec.State(cache, count, dirty)
    }

    predicate Valid()
      reads this
    {
      Spec.Valid(State())
    }

    constructor (parseFloat: string -> Option<Float>)
      ensures State() == Spec.Empty && Valid()
      ensures this.parseFloat == parseFloat
    {
      cache := map[];
      count := map[];
      dirty := false;
      this.parseFloat := parseFloat;
    }

    /** Marks the store as changed since the last snapshot. */
    method ScheduleUpdate()
      modifies this`dirty
      ensures dirty
    {
      dirty := true;
    }

    /** The persister's compare-and-swap of the flag from set to clear. */
    method TakeDirty() returns (wasDirty: bool)
      modifies this`dirty
      ensures (State(), wasDirty) == Spec.TakeDirty(old(State()))
    {
      wasDirty := dirty;
      if dirty {
        dirty := false;
      }
    }

    method Create(k: Key, v: Value) returns (code: int)
      requires Valid()
      modifies this
      ensures Valid()
      ensures Spec.Outcome(State(), code) == Spec.Create(old(State()), k, v)
    {
      if k !in cache {
        cache := cache[k := v];
        count := count[k := 0];
        ScheduleUpdate();
        return Spec.Created;
      }
      return Spec.Conflict;
    }

    method Update(k: Key, v: Value) returns (code: int)
      requires Valid()
      modifies this
      ensures Valid()
      ensures Spec.Outcome(State(), code) == Spec.Update(old(State()), k, v)
    {
      if k in cache {
        cache := cache[k := v];
        ScheduleUpdate();
        return Spec.NoContent;
      }
      return Spec.NotFound;
    }

    /** One candidate of Get: report `look`'s value under `tag`, then evict or count `tag`. */
    method Touch(look: Key, tag: Key, elts: seq<Spec.Entry>) returns (elts': seq<Spec.Entry>)
      modifies this`cache, this`count
      ensures (State(), elts') == Spec.Touch(old(State()), elts, look, tag)
    {
      elts' := elts;
      if look in cache {
        elts' := elts' + [Spec.Entry(tag, cache[look])];
        var c := Spec.CountOf(count, tag);
        if c == Spec.EvictAt {
          cache := cache - {tag};
          count := count - {tag};
        } else {
          count := count[tag := c + 1];
        }
      }
    }

    /**
     * One optional lookup of Get: `extra` holds the key a parse produced, or
     * nothing when the parse failed; the state so far is the fold over `cs`.
     * An int64 candidate is looked up as a Go int (GetLookup).
     */
    method TouchParsed(ghost st0: Spec.State, ghost cs: seq<Key>, extra: seq<Key>, elts: seq<Spec.Entry>)
      returns (elts': seq<Spec.Entry>)
      requires |extra| <= 1
      requires (State(), elts) == Spec.TouchAll(st0, cs)
      modifies this`cache, this`count
      ensures (State(), elts') == Spec.TouchAll(st0, cs + extra)
    {
      if extra == [] {
        assert cs + extra == cs;
        elts' := elts;
      } else {
        Spec.TouchAllSnoc(st0, cs, extra[0]);
        assert cs + extra == cs + [extra[0]];
        elts' := Touch(GetLookup(extra[0]), extra[0], elts);
      }
    }

    /** The four lookups of Get, in resolution order: string, int, float, bool. */
    method TouchCandidates(token: string) returns (elts: seq<Spec.Entry>)
      modifies this`cache, this`count
      ensures (State(), elts) == Spec.TouchAll(old(State()), Candidates(token, parseFloat))
    {
      ghost var st0 := State();
      Spec.TouchAllSnoc(st0, [], Str(token));
      assert [] + [Str(token)] == [Str(token)];
      elts := Touch(Str(token), Str(token), []);
      var ints := IntCandidate(ParseInt(token));
      elts := TouchParsed(st0, [Str(token)], ints, elts);
      var floats := FloatCandidate(parseFloat(token));
      elts := TouchParsed(st0, [Str(token)] + ints, floats, elts);
      var bools := BoolCandidate(ParseBool(token));
      elts := TouchParsed(st0, [Str(token)] + ints + floats, bools, elts);
    }

    /** The answer of Get once the lookups are done: 200 and a flush scheduled when something was found, else 404. */
    method Report(ghost st0: Spec.State, ghost cs: seq<Key>, found: seq<Spec.Entry>)
      returns (elts: seq<Spec.Entry>, code: int)
      requires (State(), found) == Spec.TouchAll(st0, cs)
      requires Valid()
      modifies this`dirty
      ensures Valid()
      ensures Spec.Read(State(), elts, code) == Spec.GetFrom(st0, cs)
    {
      if |found| > 0 {
        ScheduleUpdate();
        elts, code := found, Spec.OK;
      } else {
        elts, code := [], Spec.NotFound;
      }
    }

    method Get(token: string) returns (elts: seq<Spec.Entry>, code: int)
      requires Valid()
      modifies this
      ensures Valid()
      ensures Spec.Read(State(), elts, code) == Spec.Get(old(State()), token, parseFloat)
    {
      ghost var st0 := State();
      ghost var cs := Candidates(token, parseFloat);
      assert Spec.Get(st0, token, parseFloat) == Spec.GetFrom(st0, cs);
      var found := TouchCandidates(token);
      Spec.TouchAllPreservesValid(st0, cs);
      elts, code := Report(st0, cs, found);
    }

    /** One candidate of Rm: remove `k` from both tables if it is cached. */
    method Drop(k: Key, found: bool) returns (found': bool)
      modifies this`cache, this`count
      ensures (State(), found') == Spec.Drop(old(State()), found, k)
    {
      found' := found;
      if k in cache {
        cache := cache - {k};
        count := count - {k};
        found' := true;
      }
    }

    /**
     * One optional deletion of Rm: `extra` holds the key a parse produced, or
     * nothing when the parse failed; the state so far is the fold over `cs`.
     */
    method DropParsed(ghost st0: Spec.State, ghost found0: bool, ghost cs: seq<Key>, extra: seq<Key>, found: bool)
      returns (found': bool)
      requires |extra| <= 1
      requires (State(), found) == Spec.DropAll(st0, found0, cs)
      modifies this`cache, this`count
      ensures (State(), found') == Spec.DropAll(st0, found0, cs + extra)
    {
      if extra == [] {
        assert cs + extra == cs;
        found' := found;
      } else {
        Spec.DropAllSnoc(st0, found0, cs, extra[0]);
        assert cs + extra == cs + [extra[0]];
        found' := Drop(extra[0], found);
      }
    }

    /** The four deletions of Rm, in resolution order: string, int64, float, bool. */
    method DropCandidates(token: string, found: bool) returns (found': bool)
      modifies this`cache, this`count
      ensures (State(), found') == Spec.DropAll(old(State()), found, Candidates(token, parseFloat))
    {
      ghost var st0 := State();
      Spec.DropAllSnoc(st0, found, [], Str(token));
      assert [] + [Str(token)] == [Str(token)];
      found' := Drop(Str(token), found);
      var ints := IntCandidate(ParseInt(token));
      found' := DropParsed(st0, found, [Str(token)], ints, found');
      var floats := FloatCandidate(parseFloat(token));
      found' := DropParsed(st0, found, [Str(token)] + ints, floats, found');
      var bools := BoolCandidate(ParseBool(token));
      found' := DropParsed(st0, found, [Str(token)] + ints + floats, bools, found');
    }

    method Rm(token: string) returns (code: int)
      requires Valid()
      modifies this
      ensures Valid()
      ensures Spec.Outcome(State(), code) == Spec.Rm(old(State()), token, parseFloat)
    {
      ghost var st0 := State();
      var cleared := token == "";
      if cleared {
        cache := map[];
        count := map[];
      }
      var found := DropCandidates(token, cleared);
      Spec.RmPreservesValid(st0, token, parseFloat);
      if found {
        ScheduleUpdate();
        code := Spec.NoContent;
      } else {
        code := Spec.NotFound;
      }
    }

    /** Lists every entry once, in no particular order; changes nothing. */
    method Flatten() returns (elts: seq<Spec.Entry>)
      ensures Spec.Flattened(cache, elts)
    {
      elts := [];
      var rest := cache.Keys;
      while rest != {}
        invariant rest <= cache.Keys
        invariant |elts| + |rest| == |cache|
        invariant forall i :: 0 <= i < |elts| ==> elts[i].key in cache && elts[i].key !in rest && elts[i].value == cache[elts[i].key]
        invariant forall i, j :: 0 <= i < j < |elts| ==> elts[i].key != elts[j].key
        invariant forall k :: k in cache && k !in rest ==> exists i :: 0 <= i < |elts| && elts[i].key == k
        decreases rest
      {
        var k :| k in rest;
        ghost var before := elts;
        elts := elts + [Spec.Entry(k, cache[k])];
        rest := rest - {k};
        forall k' | k' in cache && k' !in rest
          ensures exists i :: 0 <= i < |elts| && elts[i].key == k'
        {
          if k' == k {
            assert elts[|elts| - 1].key == k;
          } else {
            var i :| 0 <= i < |before| && before[i].key == k';
            assert elts[i].key == k';
          }
        }
      }
    }
  }
}
