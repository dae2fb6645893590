/**
 * Key resolution: a URL token is a string, but the stored key may have been
 * a string, an integer, a float or a boolean. Both `get` and `rm` try the
 * same parses, always in the same order.
 */
module Resolver {
  import opened Wrappers
  import opened Keys

  /** Position of a key's type in the resolution order (int and int64 share one). */
  function Rank(k: Key): nat
  {
    match k
    case Str(_) => 0
    case Int(_) => 1
    case Int64(_) => 1
    case F64(_) => 2
    case Bool(_) => 3
  }

  /**
   * The typed keys a token may stand for: the string itself, then the int64
   * that strconv.ParseInt returns, the float64 of ParseFloat and the bool of
   * ParseBool, each only when its parse succeeds. ParseFloat is not modelled
   * and comes in as `parseFloat`.
   */
  function Candidates(token: string, parseFloat: string -> Option<Float>): (cs: seq<Key>)
    ensures 1 <= |cs| <= 4 && cs[0] == Str(token)
    ensures forall i, j :: 0 <= i < j < |cs| ==> Rank(cs[i]) < Rank(cs[j])
    ensures forall c :: c in cs <==>
      || c == Str(token)
      || (c.Int64? && ParseInt(token) == Some(c.i))
      || (c.F64? && parseFloat(token) == Some(c.f))
      || (c.Bool? && ParseBool(token) == Some(c.b))
  {
    [Str(token)] + IntCandidate(ParseInt(token)) + FloatCandidate(parseFloat(token)) + BoolCandidate(ParseBool(token))
  }

  function IntCandidate(parsed: Option<int>): (cs: seq<Key>)
    ensures |cs| <= 1 && (cs != [] <==> parsed.Some?)
    ensures forall c :: c in cs <==> parsed.Some? && c == Int64(parsed.value)
    ensures forall c :: c in cs ==> Rank(c) == 1
  {
    if parsed.Some? then [Int64(parsed.value)] else []
  }

  function FloatCandidate(parsed: Option<Float>): (cs: seq<Key>)
    ensures |cs| <= 1 && (cs != [] <==> parsed.Some?)
    ensures forall c :: c in cs <==> parsed.Some? && c == F64(parsed.value)
    ensures forall c :: c in cs ==> Rank(c) == 2
  {
    if parsed.Some? then [F64(parsed.value)] else []
  }

  function BoolCandidate(parsed: Option<bool>): (cs: seq<Key>)
    ensures |cs| <= 1 && (cs != [] <==> parsed.Some?)
    ensures forall c :: c in cs <==> parsed.Some? && c == Bool(parsed.value)
    ensures forall c :: c in cs ==> Rank(c) == 3
  {
    if parsed.Some? then [Bool(parsed.value)] else []
  }

  /**
   * The key `get` looks up for a candidate: the parsed int64 is converted to
   * a Go `int` before the lookup (main.go:135); every other candidate is
   * looked up as it is.
   */
  function GetLookup(c: Key): (k: Key)
    ensures Rank(k) == Rank(c)
    ensures !k.Int64?
  {
    match c
    case Int64(i) => Int(i)
    case _ => c
  }

  /** Candidates are pairwise distinct, and no candidate is looked up under a key an earlier one counts under. */
  predicate NoLookBack(cs: seq<Key>)
  {
    forall i, j :: 0 <= i < j < |cs| ==> GetLookup(cs[j]) != cs[i] && cs[j] != cs[i]
  }

  lemma CandidatesNoLookBack(token: string, parseFloat: string -> Option<Float>)
    ensures NoLookBack(Candidates(token, parseFloat))
  {
  }

  /** The token "123" resolves to the string "123" and to the int64 123, string first. */
  lemma NumericTokenCandidates(parseFloat: string -> Option<Float>)
    ensures var cs := Candidates("123", parseFloat); |cs| >= 2 && cs[..2] == [Str("123"), Int64(123)]
  {
    assert DigitsValue("123") == 123 by {
      assert "123"[..2] == "12" && "12"[..1] == "1" && "1"[..0] == "";
    }
    assert ParseInt("123") == Some(123);
  }
}
