/**
 * Keys and values of the cache, and the two token parsers whose behaviour is
 * fixed by Go's strconv package: ParseInt(s, 10, 64) and ParseBool(s).
 */
module Keys {
  import opened Wrappers

  /** A Go float64; the store only compares floats for equality (NaN keys are not modelled). */
  type Float(==, !new)

  /** A cached value; the store never inspects it. */
  type Value(!new)

  /**
   * A key of the Go map `map[interface{}]...`: two keys are equal only when
   * both their dynamic type and their value agree, so `int` 5 and `int64` 5
   * are different keys.
   */
  datatype Key =
    | Str(s: string)
    | Int(i: int)      // Go `int`
    | Int64(i: int)    // Go `int64`
    | F64(f: Float)
    | Bool(b: bool)

  const MinInt64: int := -0x8000_0000_0000_0000
  const MaxInt64: int := 0x7fff_ffff_ffff_ffff

  predicate IsDigit(c: char) { '0' <= c <= '9' }

  predicate AllDigits(s: string) { forall i :: 0 <= i < |s| ==> IsDigit(s[i]) }

  /** The number written by a string of decimal digits (most significant first). */
  function DigitsValue(s: string): (n: nat)
    requires AllDigits(s)
  {
    if s == [] then 0 else DigitsValue(s[..|s| - 1]) * 10 + (s[|s| - 1] as int - '0' as int)
  }

  /**
   * strconv.ParseInt(s, 10, 64): an optional '+' or '-', then at least one
   * decimal digit and nothing else; a value outside the int64 range is an
   * error, like any syntax error.
   */
  function ParseInt(s: string): (r: Option<int>)
    ensures r.Some? ==> MinInt64 <= r.value <= MaxInt64
    ensures r.Some? ==> s != [] && (r.value < 0 ==> s[0] == '-')
  {
    if s == [] then None
    else
      var neg := s[0] == '-';
      var digits := if s[0] == '+' || s[0] == '-' then s[1..] else s;
      if digits == [] || !AllDigits(digits) then None
      else
        var n: int := DigitsValue(digits);
        if neg then (if n <= -MinInt64 then Some(-n) else None)
        else (if n <= MaxInt64 then Some(n) else None)
  }

  function Digit(d: nat): (c: char)
    requires d < 10
    ensures IsDigit(c) && c as int - '0' as int == d
  {
    ('0' as int + d) as char
  }

  /** The shortest decimal spelling of a natural number. */
  function Decimal(n: nat): (s: string)
    ensures s != [] && AllDigits(s) && DigitsValue(s) == n
  {
    if n < 10 then [Digit(n)]
    else
      var s := Decimal(n / 10) + [Digit(n % 10)];
      assert s[..|s| - 1] == Decimal(n / 10);
      s
  }

  /** The canonical token of an integer key, as strconv.FormatInt(n, 10) writes it. */
  function FormatInt(n: int): string
  {
    if n < 0 then "-" + Decimal(-n) else Decimal(n)
  }

  /** Every int64 survives being written as a token and parsed back. */
  lemma ParseFormatInt(n: int)
    requires MinInt64 <= n <= MaxInt64
    ensures ParseInt(FormatInt(n)) == Some(n)
  {
  }

  const TrueSpellings: set<string> := {"1", "t", "T", "TRUE", "true", "True"}
  const FalseSpellings: set<string> := {"0", "f", "F", "FALSE", "false", "False"}

  /** strconv.ParseBool: exactly twelve spellings are accepted. */
  function ParseBool(s: string): (r: Option<bool>)
    ensures r.Some? ==> 1 <= |s| <= 5
    ensures r == Some(true) ==> s[0] == '1' || s[0] == 't' || s[0] == 'T'
    ensures r == Some(false) ==> s[0] == '0' || s[0] == 'f' || s[0] == 'F'
  {
    if s in TrueSpellings then Some(true)
    else if s in FalseSpellings then Some(false)
    else None
  }

  /** The canonical token of a boolean key, as strconv.FormatBool writes it. */
  function FormatBool(b: bool): string
  {
    if b then "true" else "false"
  }

  /**
   * The accepted spellings are exactly the twelve listed, six for each
   * boolean and none shared, so no token is both true and false.
   */
  lemma ParseBoolSpellings(s: string)
    ensures ParseBool(s).Some? <==> s in TrueSpellings + FalseSpellings
    ensures ParseBool(s) == Some(true) <==> s in TrueSpellings
    ensures |TrueSpellings| == 6 && |FalseSpellings| == 6 && TrueSpellings !! FalseSpellings
  {
  }

  lemma ParseFormatBool(b: bool)
    ensures ParseBool(FormatBool(b)) == Some(b)
  {
  }

  /** "1" and "0" are read both as integers and as booleans. */
  lemma DigitTokensAreAlsoBooleans()
    ensures ParseInt("1") == Some(1) && ParseBool("1") == Some(true)
    ensures ParseInt("0") == Some(0) && ParseBool("0") == Some(false)
  {
  }
}
