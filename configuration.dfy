/**
 * The library configuration (`Config` in src/config.rs): the master key, the number of MAC
 * bytes and the number of bytes small numbers are zero-padded to. The setters consume the
 * record and return it updated, or an error when the value is above 8.
 */
module Configuration {
  import opened Bytes

  /** The largest accepted MAC length and zero-pad length. */
  const MAX_LENGTH: nat := 8
  /** The defaults set by `Config::new`. */
  const DEFAULT_HMAC_LENGTH: byte := 4
  const DEFAULT_ZERO_PAD_LENGTH: byte := 4

  datatype Config = Config(hmacLength: byte, key: seq<byte>, zeroPadLength: byte)

  datatype ConfigError = InvalidMacLength | InvalidZeroPadLength

  datatype Result<+T, +E> = Ok(value: T) | Err(error: E)

  /** The bound the codec's 16-byte buffer relies on. */
  predicate Valid(c: Config) {
    c.hmacLength <= MAX_LENGTH && c.zeroPadLength <= MAX_LENGTH
  }

  /** `Config::new`: the given key with both lengths at their default of 4. */
  function New(key: seq<byte>): (c: Config)
    ensures Valid(c)
    ensures c.key == key
    ensures c.hmacLength == DEFAULT_HMAC_LENGTH && c.zeroPadLength == DEFAULT_ZERO_PAD_LENGTH
  {
    Config(DEFAULT_HMAC_LENGTH, key, DEFAULT_ZERO_PAD_LENGTH)
  }

  /** `Config::hmac_length`: rejects values above 8, otherwise changes only the MAC length. */
  function HmacLength(c: Config, hmacLength: byte): (r: Result<Config, ConfigError>)
    ensures r.Err? <==> hmacLength > MAX_LENGTH
    ensures r.Err? ==> r.error == InvalidMacLength
    ensures r.Ok? ==> r.value.hmacLength == hmacLength
    ensures r.Ok? ==> r.value.key == c.key && r.value.zeroPadLength == c.zeroPadLength
    ensures r.Ok? ==> (Valid(r.value) <==> c.zeroPadLength <= MAX_LENGTH)
  {
    if hmacLength > MAX_LENGTH then Err(InvalidMacLength)
    else Ok(c.(hmacLength := hmacLength))
  }

  /** `Config::zero_pad_length`: rejects values above 8, otherwise changes only the pad length. */
  function ZeroPadLength(c: Config, zeroPadLength: byte): (r: Result<Config, ConfigError>)
    ensures r.Err? <==> zeroPadLength > MAX_LENGTH
    ensures r.Err? ==> r.error == InvalidZeroPadLength
    ensures r.Ok? ==> r.value.zeroPadLength == zeroPadLength
    ensures r.Ok? ==> r.value.key == c.key && r.value.hmacLength == c.hmacLength
    ensures r.Ok? ==> (Valid(r.value) <==> c.hmacLength <= MAX_LENGTH)
  {
    if zeroPadLength > MAX_LENGTH then Err(InvalidZeroPadLength)
    else Ok(c.(zeroPadLength := zeroPadLength))
  }

  /** One call of a setter in a builder chain. */
  datatype Setting = SetHmacLength(hmacLength: byte) | SetZeroPadLength(zeroPadLength: byte)

  function Apply(c: Config, s: Setting): Result<Config, ConfigError> {
    match s
    case SetHmacLength(v) => HmacLength(c, v)
    case SetZeroPadLength(v) => ZeroPadLength(c, v)
  }

  /**
   * `Config::new(key)` followed by the setters in order, each applied with `?`: the first
   * error ends the chain.
   */
  function Build(key: seq<byte>, settings: seq<Setting>): Result<Config, ConfigError>
    decreases |settings|
  {
    if settings == [] then Ok(New(key))
    else
      match Build(key, settings[..|settings| - 1])
      case Err(e) => Err(e)
      case Ok(c) => Apply(c, settings[|settings| - 1])
  }

  /** Every configuration reachable from `new` through the setters keeps both lengths at most 8. */
  lemma {:induction false} BuildValid(key: seq<byte>, settings: seq<Setting>)
    ensures Build(key, settings).Ok? ==> Valid(Build(key, settings).value)
    ensures Build(key, settings).Ok? ==> Build(key, settings).value.key == key
    decreases |settings|
  {
    if settings != [] {
      BuildValid(key, settings[..|settings| - 1]);
    }
  }

  /** The error of a chain is the error of its first failing setter. */
  lemma {:induction false} BuildFirstError(key: seq<byte>, settings: seq<Setting>, k: nat)
    requires k < |settings|
    requires Build(key, settings[..k]).Ok?
    requires Apply(Build(key, settings[..k]).value, settings[k]).Err?
    ensures Build(key, settings) == Apply(Build(key, settings[..k]).value, settings[k])
    decreases |settings|
  {
    if k + 1 < |settings| {
      assert settings[..|settings| - 1][..k] == settings[..k];
      BuildFirstError(key, settings[..|settings| - 1], k);
    } else {
      assert settings[..|settings| - 1] == settings[..k];
    }
  }
}
