/** Typed addresses: a network, one of three kinds and a fixed-size payload. */
module Address {
  import opened BitGroups
  import Bech32

  datatype Network = Unknown | Kaspa | KaspaDev | KaspaTest | KaspaSim

  const PREFIXES: map<string, Network> :=
    map["kaspa" := Kaspa, "kaspadev" := KaspaDev, "kaspatest" := KaspaTest, "kaspasim" := KaspaSim]

  const PUBLIC_KEY_SIZE := 32
  const PUBLIC_KEY_SIZE_ECDSA := 33
  const SCRIPT_HASH_SIZE := 32

  const PUB_KEY_ADDR_ID: bv8 := 0x00
  const PUB_KEY_ECDSA_ADDR_ID: bv8 := 0x01
  const SCRIPT_HASH_ADDR_ID: bv8 := 0x08

  datatype Address =
    | PublicKey(network: Network, bytes: seq<bv8>)
    | PublicKeyECDSA(network: Network, bytes: seq<bv8>)
    | ScriptHash(network: Network, bytes: seq<bv8>)
  {
    function Size(): nat {
      match this
      case PublicKey(_, _) => PUBLIC_KEY_SIZE
      case PublicKeyECDSA(_, _) => PUBLIC_KEY_SIZE_ECDSA
      case ScriptHash(_, _) => SCRIPT_HASH_SIZE
    }

    function Version(): bv8 {
      match this
      case PublicKey(_, _) => PUB_KEY_ADDR_ID
      case PublicKeyECDSA(_, _) => PUB_KEY_ECDSA_ADDR_ID
      case ScriptHash(_, _) => SCRIPT_HASH_ADDR_ID
    }

    /** The payload fills the fixed-size array of its kind. */
    predicate Valid() {
      |bytes| == Size()
    }
  }

  datatype Error =
    | UnknownFormat(reason: Bech32.Error)
    | UnparsablePrefix(prefix: string)
    | WrongNetwork(expected: Network, got: Network)
    | UnknownAddressType
    | WrongSize
    | IndexPanic

  datatype Result<T> = Ok(value: T) | Err(error: Error)

  function ParsePrefix(prefix: string): Result<Network> {
    if prefix in PREFIXES then Ok(PREFIXES[prefix]) else Err(UnparsablePrefix(prefix))
  }

  /** The specification of `NetworkString`: the text form of a network, empty for an unknown one. */
  function Text(network: Network): string {
    match network
    case Unknown => ""
    case Kaspa => "kaspa"
    case KaspaDev => "kaspadev"
    case KaspaTest => "kaspatest"
    case KaspaSim => "kaspasim"
  }

  lemma PrefixesAreTexts(key: string)
    ensures key in PREFIXES <==> exists n: Network :: n != Unknown && key == Text(n)
    ensures key in PREFIXES ==> Text(PREFIXES[key]) == key && PREFIXES[key] != Unknown
  {
    assert Text(Kaspa) in PREFIXES && Text(KaspaDev) in PREFIXES && Text(KaspaTest) in PREFIXES && Text(KaspaSim) in PREFIXES;
    if key in PREFIXES {
      assert key == Text(Kaspa) || key == Text(KaspaDev) || key == Text(KaspaTest) || key == Text(KaspaSim);
      TextIsInjective();
    }
  }

  lemma TextIsInjective()
    ensures forall n: Network, m: Network :: Text(n) == Text(m) ==> n == m
  {
    assert |Text(Kaspa)| == 5 && |Text(KaspaDev)| == 8 && |Text(KaspaTest)| == 9 && |Text(KaspaSim)| == 8;
    assert Text(KaspaDev)[5] == 'd' && Text(KaspaSim)[5] == 's';
  }

  /** The lookup visits the table in any order. */
  method NetworkString(network: Network) returns (s: string)
    ensures s == Text(network)
  {
    var remaining := PREFIXES.Keys;
    while remaining != {}
      invariant remaining <= PREFIXES.Keys
      invariant forall key :: key in PREFIXES && key !in remaining ==> PREFIXES[key] != network
      decreases remaining
    {
      var key :| key in remaining;
      if network == PREFIXES[key] {
        PrefixesAreTexts(key);
        return key;
      }
      remaining := remaining - {key};
    }
    if network != Unknown {
      PrefixesAreTexts(Text(network));
      TextIsInjective();
      assert false;
    }
    s := "";
  }

  /** The specification of `EncodeAddress`. */
  function Encoded(a: Address): string {
    Bech32.EncodeText(Text(a.network), a.bytes, a.Version())
  }

  function NewAddress(a: Address): Result<Address> {
    if a.Valid() then Ok(a) else Err(WrongSize)
  }

  /** The specification of `DecodeAddress`. */
  function DecodedAddress(addr: string, expected: Network): Result<Address> {
    match Bech32.DecodeText(addr)
    case Rejected(reason) => Err(UnknownFormat(reason))
    case IndexPanic => Err(IndexPanic)
    case Decoded(prefix, payload, version) =>
      match ParsePrefix(prefix)
      case Err(error) => Err(error)
      case Ok(network) =>
        if expected != Unknown && expected != network then Err(WrongNetwork(expected, network))
        else if version == PUB_KEY_ADDR_ID then NewAddress(PublicKey(network, payload))
        else if version == PUB_KEY_ECDSA_ADDR_ID then NewAddress(PublicKeyECDSA(network, payload))
        else if version == SCRIPT_HASH_ADDR_ID then NewAddress(ScriptHash(network, payload))
        else Err(UnknownAddressType)
  }

  method EncodeAddress(a: Address) returns (encoded: string)
    ensures encoded == Encoded(a)
  {
    var prefix := NetworkString(a.network);
    encoded := Bech32.Encode(prefix, a.bytes, a.Version());
  }

  method DecodeAddress(addr: string, expected: Network) returns (r: Result<Address>)
    ensures r == DecodedAddress(addr, expected)
  {
    var decoded := Bech32.Decode(addr);
    match decoded {
      case Rejected(reason) => r := Err(UnknownFormat(reason));
      case IndexPanic => r := Err(IndexPanic);
      case Decoded(prefix, payload, version) =>
        var parsed := ParsePrefix(prefix);
        if parsed.Err? {
          return Err(parsed.error);
        }
        var network := parsed.value;
        if expected != Unknown && expected != network {
          return Err(WrongNetwork(expected, network));
        }
        if version == PUB_KEY_ADDR_ID {
          r := NewAddress(PublicKey(network, payload));
        } else if version == PUB_KEY_ECDSA_ADDR_ID {
          r := NewAddress(PublicKeyECDSA(network, payload));
        } else if version == SCRIPT_HASH_ADDR_ID {
          r := NewAddress(ScriptHash(network, payload));
        } else {
          r := Err(UnknownAddressType);
        }
    }
  }

  lemma NetworkTextIsGood(network: Network)
    ensures Bech32.GoodPrefix(Text(network)) <==> network != Unknown
  {
  }

  /**
   Decoding inverts encoding for all three kinds of address, on exactly the four networks and
   for exactly those expected networks that do not contradict the address.
   */
  lemma DecodeInvertsEncode(a: Address, expected: Network)
    requires a.Valid()
    ensures DecodedAddress(Encoded(a), expected) == Ok(a) <==>
            a.network != Unknown && (expected == Unknown || expected == a.network)
  {
    hide Bech32.EncodeText, Bech32.DecodeText, Bech32.GoodPrefix;
    NetworkTextIsGood(a.network);
    Bech32.DecodeInvertsEncode(Text(a.network), a.bytes, a.Version());
    PrefixesAreTexts(Text(a.network));
    TextIsInjective();
    if a.network == Unknown && DecodedAddress(Encoded(a), expected) == Ok(a) {
      PrefixesAreTexts(Bech32.DecodeText(Encoded(a)).prefix);
    }
  }

  /** Different addresses never share their text. */
  lemma EncodingIsInjective(a: Address, b: Address)
    requires a.Valid() && b.Valid() && a.network != Unknown && b.network != Unknown
    requires Encoded(a) == Encoded(b)
    ensures a == b
  {
    hide Encoded, DecodedAddress;
    DecodeInvertsEncode(a, Unknown);
    DecodeInvertsEncode(b, Unknown);
  }

  /**
   A lower-case text that decodes to an address is the text of that address exactly when the
   bits dropped from its symbols are fewer than five and all zero.
   */
  lemma TextIsCanonicalExactlyWhenNothingIsDropped(addr: string, expected: Network)
    requires Bech32.Lower(addr) == addr && DecodedAddress(addr, expected).Ok?
    ensures Bech32.DecodeSymbols(addr).Ok?
    ensures var symbols := Bech32.DecodeSymbols(addr).value.symbols;
            Encoded(DecodedAddress(addr, expected).value) == addr <==>
            5 * |symbols| % 8 < 5 && forall i :: 0 <= i < |DroppedBits(symbols)| ==> !DroppedBits(symbols)[i]
  {
    hide Bech32.EncodeText, Bech32.DecodeText, DroppedBits;
    PrefixesAreTexts(Bech32.DecodeText(addr).prefix);
    Bech32.EncodeInvertsDecodeExactlyWhenCanonical(addr);
  }

  /**
   What is accepted, over all texts: an address is decoded if and only if its network is known and
   not contradicted, and the text carries the prefix of its network, its payload, and the version
   and size of its kind.
   */
  lemma AcceptsExactly(addr: string, expected: Network, a: Address)
    ensures DecodedAddress(addr, expected) == Ok(a) <==>
            && a.network != Unknown && (expected == Unknown || expected == a.network)
            && Bech32.DecodeText(addr).Decoded?
            && Bech32.DecodeText(addr).prefix == Text(a.network) && Bech32.DecodeText(addr).payload == a.bytes
            && var version := Bech32.DecodeText(addr).version;
               match a
               case PublicKey(_, bytes) => version == 0 && |bytes| == 32
               case PublicKeyECDSA(_, bytes) => version == 1 && |bytes| == 33
               case ScriptHash(_, bytes) => version == 8 && |bytes| == 32
  {
    hide Bech32.DecodeText;
    PrefixesAreTexts(Text(a.network));
    TextIsInjective();
    if Bech32.DecodeText(addr).Decoded? {
      PrefixesAreTexts(Bech32.DecodeText(addr).prefix);
    }
  }

  /** An address of one of the two networks with prefixes of the same length is rejected under the prefix of the other. */
  lemma NetworksAreToldApart(a: Address, other: Network, expected: Network)
    requires {a.network, other} == {KaspaDev, KaspaSim} && a.Valid()
    ensures |Encoded(a)| >= 8 && DecodedAddress(Text(other) + Encoded(a)[8..], expected).Err?
  {
    hide Bech32.EncodeSymbols, Bech32.DecodeSymbols, Bech32.GoodPrefix, ToSymbols;
    var p, q := Text(a.network), Text(other);
    assert a.network != other && (a.network == KaspaDev || a.network == KaspaSim) && (other == KaspaDev || other == KaspaSim);
    NetworkTextIsGood(a.network);
    NetworkTextIsGood(other);
    var symbols := ToSymbols([a.Version()] + a.bytes);
    Bech32.SymbolsOfBytes([a.Version()] + a.bytes);
    assert p[5] as int % 32 != q[5] as int % 32;
    Bech32.RenamedPrefixIsNoticedExactly(p, q, symbols, 5);
  }

  /** The error names the first test that fails: format, prefix, network, version, size. */
  lemma RejectsExactlySo(addr: string, expected: Network, e: Error)
    ensures DecodedAddress(addr, expected) == Err(e) <==>
            match Bech32.DecodeText(addr)
            case Rejected(reason) => e == UnknownFormat(reason)
            case IndexPanic => e == IndexPanic
            case Decoded(prefix, payload, version) =>
              if prefix !in {"kaspa", "kaspadev", "kaspatest", "kaspasim"} then e == UnparsablePrefix(prefix)
              else if expected != Unknown && prefix != Text(expected) then
                e.WrongNetwork? && e.expected == expected && Text(e.got) == prefix && e.got != Unknown
              else if version !in {0, 1, 8} then e == UnknownAddressType
              else e == WrongSize && |payload| != (if version == 1 then 33 else 32)
  {
    hide Bech32.DecodeText;
    if Bech32.DecodeText(addr).Decoded? {
      PrefixesAreTexts(Bech32.DecodeText(addr).prefix);
      TextIsInjective();
    }
  }
}
