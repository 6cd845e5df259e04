/** The configuration of the Rust sample: a named string-to-string map with
    a size bound that only `validate` looks at, plus `process_result`. */
module Configuration {
  import opened Wrappers
  import Decimal

  /** `max_size` of a configuration made by `Config::new`. */
  const DEFAULT_MAX_SIZE: nat := 100

  const EMPTY_NAME_MESSAGE: string := "Name cannot be empty"
  const POSITIVE_PREFIX: string := "Positive: "
  const ZERO_MESSAGE: string := "Zero"
  const NEGATIVE_MESSAGE: string := "Negative values not allowed"
  const NONE_MESSAGE: string := "No value provided"

  /** Rust's `i32`. */
  newtype i32 = x: int | -0x8000_0000 <= x < 0x8000_0000

  /** `Config`; `max_size` is a `usize` and the map length can never reach
      its bound, so both are unbounded naturals here. */
  datatype Config = Config(name: string, values: map<string, string>, maxSize: nat)

  /** `Config::new(name)`. */
  function New(name: string): (c: Config)
    ensures c.name == name && c.values == map[] && c.maxSize == DEFAULT_MAX_SIZE
  {
    Config(name, map[], 100)
  }

  /** `Config::default()` from `#[derive(Default)]`: empty name, empty map,
      `max_size` zero. */
  function Default(): (c: Config)
    ensures c.name == "" && c.values == map[] && c.maxSize == 0
  {
    Config("", map[], 0)
  }

  /** `Config::get`: a plain lookup. */
  function Get(c: Config, key: string): (r: Option<string>)
    ensures r.Some? <==> key in c.values
    ensures r.Some? ==> r.value == c.values[key]
  {
    if key in c.values then Some(c.values[key]) else None
  }

  /** What `Config::set` leaves behind: the configuration afterwards, and
      the value `HashMap::insert` handed back. */
  datatype SetOutcome = SetOutcome(config: Config, previous: Option<string>)

  /** `Config::set`: `HashMap::insert` semantics. The previous value comes
      back, the key now reads the new value, no other key changes, and the
      size bound is not checked. */
  function Set(c: Config, key: string, value: string): (r: SetOutcome)
    ensures r.previous == Get(c, key)
    ensures Get(r.config, key) == Some(value)
    ensures forall k :: k != key ==> Get(r.config, k) == Get(c, k)
    ensures r.config.name == c.name && r.config.maxSize == c.maxSize
    ensures |r.config.values| == if key in c.values then |c.values| else |c.values| + 1
  {
    SetOutcome(c.(values := c.values[key := value]), Get(c, key))
  }

  /** A second `set` of the same key hands back the value of the first. */
  lemma SetTwiceReturnsFirstValue(c: Config, key: string, v1: string, v2: string)
    ensures Set(Set(c, key, v1).config, key, v2).previous == Some(v1)
    ensures Get(Set(Set(c, key, v1).config, key, v2).config, key) == Some(v2)
  {
  }

  /** The error `validate` reports for an oversized map:
      "Too many values: {len} > {max_size}". */
  function TooManyMessage(len: nat, maxSize: nat): string {
    "Too many values: " + Decimal.NatToString(len) + " > " + Decimal.NatToString(maxSize)
  }

  /** `Validate::validate` for `Config`: the empty name is checked first,
      then the size bound. */
  function Validate(c: Config): (r: Result<(), string>)
    ensures r.Failure? <==> |c.name| == 0 || |c.values| > c.maxSize
    ensures |c.name| == 0 ==> r == Failure(EMPTY_NAME_MESSAGE)
    ensures |c.name| > 0 && |c.values| > c.maxSize ==> r == Failure(TooManyMessage(|c.values|, c.maxSize))
  {
    if c.name == "" then Failure("Name cannot be empty")
    else if |c.values| > c.maxSize then Failure(TooManyMessage(|c.values|, c.maxSize))
    else Success(())
  }

  /** The two errors of `validate` never coincide, so the message tells
      which check failed; the size error carries both numbers. */
  lemma ValidateErrorsDistinct(c: Config)
    requires Validate(c).Failure?
    ensures Validate(c).error == EMPTY_NAME_MESSAGE <==> |c.name| == 0
    ensures |c.name| > 0 ==> Validate(c).error[..17] == "Too many values: "
  {
    if |c.name| > 0 {
      var m := TooManyMessage(|c.values|, c.maxSize);
      assert m[0] == 'T';
      assert m[..17] == "Too many values: ";
    }
  }

  /** `Validate::is_valid`: the trait's default, "`validate` is Ok". */
  function IsValid(c: Config): (ok: bool)
    ensures ok <==> Validate(c).Success?
    ensures ok <==> |c.name| > 0 && |c.values| <= c.maxSize
  {
    Validate(c).Success?
  }

  /** A fresh configuration is valid exactly when its name is non-empty
      (the crate's `test_config_creation`); the derived default is not. */
  lemma NewConfigValidIffNamed(name: string)
    ensures IsValid(New(name)) <==> name != ""
    ensures !IsValid(Default())
  {
  }

  /** Sets every key of `keys` to `value`, in order. */
  function SetAll(c: Config, keys: seq<string>, value: string): (r: Config)
    ensures r.name == c.name && r.maxSize == c.maxSize
    decreases |keys|
  {
    if |keys| == 0 then c else SetAll(Set(c, keys[0], value).config, keys[1..], value)
  }

  /** Setting distinct fresh keys grows the map by one entry per key:
      nothing in `set` stops at `max_size`. */
  lemma {:induction false} SetAllFreshKeys(c: Config, keys: seq<string>, value: string)
    requires forall i :: 0 <= i < |keys| ==> keys[i] !in c.values
    requires forall i, j :: 0 <= i < j < |keys| ==> keys[i] != keys[j]
    ensures |SetAll(c, keys, value).values| == |c.values| + |keys|
    decreases |keys|
  {
    if |keys| > 0 {
      var c' := Set(c, keys[0], value).config;
      assert forall i :: 0 <= i < |keys[1..]| ==> keys[1..][i] !in c'.values by {
        forall i | 0 <= i < |keys[1..]| ensures keys[1..][i] !in c'.values {
          assert keys[1..][i] == keys[i + 1];
          assert Get(c', keys[i + 1]) == Get(c, keys[i + 1]);
        }
      }
      SetAllFreshKeys(c', keys[1..], value);
    }
  }

  /** The keys "0", "1", ..., spelled in decimal. */
  function NumberedKeys(n: nat): (keys: seq<string>)
    ensures |keys| == n
    ensures forall i, j :: 0 <= i < j < n ==> keys[i] != keys[j]
  {
    var keys := seq(n, i requires 0 <= i => Decimal.NatToString(i));
    assert forall i, j :: 0 <= i < j < n ==> keys[i] != keys[j] by {
      forall i, j | 0 <= i < j < n ensures keys[i] != keys[j] {
        Decimal.NatToStringInjective(i, j);
      }
    }
    keys
  }

  /** `set` never enforces `max_size`: 101 `set`s with fresh keys on a new
      configuration leave 101 values, which `validate` then rejects. */
  lemma SetCanExceedMaxSize(name: string, value: string)
    requires name != ""
    ensures var c := SetAll(New(name), NumberedKeys(101), value);
      && |c.values| == 101 > c.maxSize
      && Validate(c) == Failure(TooManyMessage(101, 100))
  {
    SetAllFreshKeys(New(name), NumberedKeys(101), value);
  }

  /** `process_result`: a total case split over `Option<i32>`. */
  function ProcessResult(value: Option<i32>): (r: Result<string, string>)
    ensures value.Some? && value.value > 0 ==> r == Success(POSITIVE_PREFIX + Decimal.NatToString(value.value as nat))
    ensures value == Some(0) ==> r == Success(ZERO_MESSAGE)
    ensures value.Some? && value.value < 0 ==> r == Failure(NEGATIVE_MESSAGE)
    ensures value.None? ==> r == Failure(NONE_MESSAGE)
  {
    match value
    case Some(n) =>
      if n > 0 then Success("Positive: " + Decimal.NatToString(n as nat))
      else if n == 0 then Success("Zero")
      else Failure("Negative values not allowed")
    case None => Failure("No value provided")
  }

  /** The four outcomes of `process_result` are distinct, so each result
      names the one case its input fell into. */
  lemma ProcessResultClassifies(value: Option<i32>)
    ensures ProcessResult(value) == Success(ZERO_MESSAGE) <==> value == Some(0)
    ensures ProcessResult(value) == Failure(NEGATIVE_MESSAGE) <==> value.Some? && value.value < 0
    ensures ProcessResult(value) == Failure(NONE_MESSAGE) <==> value.None?
    ensures (ProcessResult(value).Success? && ProcessResult(value) != Success(ZERO_MESSAGE))
      <==> value.Some? && value.value > 0
  {
    if value.Some? && value.value > 0 {
      var s := ProcessResult(value).value;
      assert s[0] == 'P';
      assert s != ZERO_MESSAGE;
    }
    assert NEGATIVE_MESSAGE != NONE_MESSAGE by { assert NEGATIVE_MESSAGE[1] != NONE_MESSAGE[1]; }
  }

  /** A positive input can be read back from its success message. */
  lemma ProcessResultPositiveRoundTrip(n: i32)
    requires n > 0
    ensures ProcessResult(Some(n)).Success?
    ensures Decimal.ParseNat(ProcessResult(Some(n)).value[|POSITIVE_PREFIX|..]) == Some(n as nat)
  {
    var s := ProcessResult(Some(n)).value;
    assert s[|POSITIVE_PREFIX|..] == Decimal.NatToString(n as nat);
    Decimal.ParseNatToString(n as nat);
  }
}
