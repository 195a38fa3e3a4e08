/**
 * Reading a block number out of an `eth_blockNumber` reply: the `result` string has
 * every leading "0x" removed (`trim_start_matches("0x")`, case-sensitive) and the rest
 * is parsed as a base-16 `u64`.
 */
module BlockNumber {
  import opened Results
  import opened ParseInt

  /** "0x" written `k` times. */
  function Prefixes(k: nat): (s: string)
    ensures |s| == 2 * k
  {
    if k == 0 then [] else "0x" + Prefixes(k - 1)
  }

  /** The string starts with the lower-case prefix "0x". */
  predicate HasHexPrefix(s: string) {
    |s| >= 2 && s[0] == '0' && s[1] == 'x'
  }

  /** `s.trim_start_matches("0x")`: removes "0x" from the front for as long as it is there. */
  function TrimHexPrefix(s: string): (r: string)
    ensures |r| <= |s|
    decreases |s|
  {
    if HasHexPrefix(s) then TrimHexPrefix(s[2..]) else s
  }

  /**
   * What `trim_start_matches("0x")` leaves: the input with some number of whole "0x"
   * copies removed from the front, not itself starting with "0x".
   */
  lemma {:induction false} TrimHexPrefixCorrect(s: string)
    ensures s == Prefixes((|s| - |TrimHexPrefix(s)|) / 2) + TrimHexPrefix(s)
    ensures !HasHexPrefix(TrimHexPrefix(s))
    decreases |s|
  {
    var r := TrimHexPrefix(s);
    if HasHexPrefix(s) {
      TrimHexPrefixCorrect(s[2..]);
      var k := (|s| - 2 - |r|) / 2;
      assert |s| - |r| == 2 * (k + 1);
      assert s == "0x" + s[2..] == "0x" + (Prefixes(k) + r) == Prefixes(k + 1) + r;
    } else {
      assert s == Prefixes(0) + s;
    }
  }

  /** The block number parsed from an RPC `result` string. */
  function Decode(s: string): Result<U64, IntErrorKind> {
    FromStrRadix(TrimHexPrefix(s), 16)
  }

  /** Any number of leading "0x" copies is removed: they never change the decoded result. */
  lemma {:induction false} DecodeSkipsPrefixes(k: nat, s: string)
    ensures Decode(Prefixes(k) + s) == Decode(s)
    decreases k
  {
    if k > 0 {
      var t := Prefixes(k) + s;
      assert t == "0x" + (Prefixes(k - 1) + s);
      assert HasHexPrefix(t) && t[2..] == Prefixes(k - 1) + s;
      assert TrimHexPrefix(t) == TrimHexPrefix(t[2..]);
      assert Decode(t) == Decode(Prefixes(k - 1) + s);
      DecodeSkipsPrefixes(k - 1, s);
    } else {
      assert Prefixes(k) + s == s;
    }
  }

  /** The prefix is optional and may repeat: "0x" + s decodes exactly like s. */
  lemma DecodeOptionalPrefix(s: string)
    ensures Decode("0x" + s) == Decode(s)
  {
    assert Prefixes(1) + s == "0x" + s;
    DecodeSkipsPrefixes(1, s);
  }

  /** The result is `Empty` exactly for strings made only of "0x" copies (including ""). */
  lemma DecodeEmpty(s: string)
    ensures Decode(s) == Err(Empty) <==> s == Prefixes(|s| / 2)
  {
    var r := TrimHexPrefix(s);
    TrimHexPrefixCorrect(s);
    FromStrRadixCorrect(r, 16);
    if r == [] {
      assert s == Prefixes(|s| / 2) + r;
    }
    if s == Prefixes(|s| / 2) {
      DecodeSkipsPrefixes(|s| / 2, []);
      assert Prefixes(|s| / 2) + [] == s;
    }
  }

  /** Round trip: "0x" followed by the lower-case hex digits of any u64 decodes to it, with or without the prefix. */
  lemma DecodeRoundTrip(n: U64)
    ensures Decode("0x" + Encode(n, 16)) == Ok(n)
    ensures Decode(Encode(n, 16)) == Ok(n)
  {
    var e := Encode(n, 16);
    assert |e| >= 2 ==> DigitValue(e[1], 16).Some?;
    assert !HasHexPrefix(e);
    EncodeRoundTrip(n, 16);
    DecodeOptionalPrefix(e);
  }

  /** Hex digits may be upper-case: "0x" followed by the upper-case digits of any u64 decodes to it. */
  lemma DecodeUpperRoundTrip(n: U64)
    ensures Decode("0x" + Upper(Encode(n, 16))) == Ok(n)
  {
    var e := Encode(n, 16);
    var u := Upper(e);
    assert |u| >= 2 ==> u[1] == UpperChar(e[1]) && u[1] != 'x';
    assert !HasHexPrefix(u);
    DecodeOptionalPrefix(u);
    CaseInsensitive(e, 16);
    EncodeRoundTrip(n, 16);
  }

  /** A number above 2^64 - 1 is an overflow error, never a wrapped-around block number. */
  lemma DecodeOverflow(n: nat)
    requires n > U64_MAX
    ensures Decode("0x" + Encode(n, 16)) == Err(PosOverflow)
  {
    var e := Encode(n, 16);
    assert |e| >= 2 ==> DigitValue(e[1], 16).Some?;
    assert !HasHexPrefix(e);
    EncodeOverflow(n, 16);
    DecodeOptionalPrefix(e);
  }

  /** The prefix match is case-sensitive: after "0X" the 'X' is read as a digit and rejected. */
  lemma DecodeUpperPrefixRejected(s: string)
    ensures Decode("0X" + s) == Err(InvalidDigit)
  {
    var t := "0X" + s;
    assert !HasHexPrefix(t);
    assert t != ['+'] && t != ['-'] && Unsigned(t) == t;
    assert t[1..] == "X" + s;
    assert DigitValue(t[0], 16) == Some(0);
    assert Accumulate(0, t, 16) == Accumulate(0, t[1..], 16);
    assert DigitValue(t[1..][0], 16).None?;
    assert Accumulate(0, t[1..], 16) == Err(InvalidDigit);
  }

  /** A single '+' sign is accepted after the prefix. */
  lemma DecodeSignedRoundTrip(n: U64)
    ensures Decode("0x+" + Encode(n, 16)) == Ok(n)
  {
    var e := Encode(n, 16);
    var t := "+" + e;
    assert "0x+" + e == "0x" + t;
    DecodeOptionalPrefix(t);
    assert TrimHexPrefix(t) == t by { assert t[0] == '+'; }
    assert t != ['+'] && t != ['-'] && Unsigned(t) == e;
    assert FromStrRadix(t, 16) == Accumulate(0, e, 16);
    assert e != [] && e != ['+'] && e != ['-'] && Unsigned(e) == e by {
      assert DigitValue(e[0], 16).Some?;
    }
    assert FromStrRadix(e, 16) == Accumulate(0, e, 16);
    EncodeRoundTrip(n, 16);
  }

  /** Worked case: "0x10a" is block 266. */
  lemma DecodeExampleHex()
    ensures Decode("0x10a") == Ok(266)
  {
  }

  /** Worked case: the prefix is optional: "10a" is 266. */
  lemma DecodeExampleBare()
    ensures Decode("10a") == Ok(266)
  {
  }

  /** Worked case: digit case is irrelevant: "0x10A" is 266. */
  lemma DecodeExampleUpperDigits()
    ensures Decode("0x10A") == Ok(266)
  {
  }

  /** Worked case: "0x0" is block 0. */
  lemma DecodeExampleZero()
    ensures Decode("0x0") == Ok(0)
  {
  }

  /** Worked case: both copies of the prefix in "0x0x10" are stripped, giving 16. */
  lemma DecodeExampleDoublePrefix()
    ensures Decode("0x0x10") == Ok(16)
  {
  }

  /** Worked case: "0x" leaves nothing to parse. */
  lemma DecodeExampleNoDigits()
    ensures Decode("0x") == Err(Empty)
  {
  }

  /** Worked case: "0xZZZ" holds non-hex digits. */
  lemma DecodeExampleInvalidDigits()
    ensures Decode("0xZZZ") == Err(InvalidDigit)
  {
  }

  /** Worked case: "0X10" keeps its upper-case prefix, whose 'X' is not a digit. */
  lemma DecodeExampleUpperPrefix()
    ensures Decode("0X10") == Err(InvalidDigit)
  {
  }

  /** Why the transport step failed: the POST could not be sent, or its body was not the expected JSON. */
  datatype TransportError = SendFailed | BodyUnreadable

  /** Every way `fetch_block_number` can fail. */
  datatype FetchError = Transport(cause: TransportError) | Hex(kind: IntErrorKind)

  /** The deserialised JSON-RPC reply; only its `result` string is used. */
  datatype RpcResponse = RpcResponse(result: string)

  /** `fetch_block_number` after the network: a transport failure is passed on, otherwise the result is decoded. */
  function FetchBlockNumber(reply: Result<RpcResponse, TransportError>): Result<U64, FetchError> {
    match reply
    case Err(e) => Err(Transport(e))
    case Ok(resp) =>
      match Decode(resp.result)
      case Ok(n) => Ok(n)
      case Err(kind) => Err(Hex(kind))
  }

  /** A fetch yields a block number only from a delivered reply whose result decodes to it. */
  lemma FetchBlockNumberCorrect(reply: Result<RpcResponse, TransportError>, n: U64)
    ensures FetchBlockNumber(reply) == Ok(n) <==> reply.Ok? && Decode(reply.value.result) == Ok(n)
    ensures reply.Err? <==> FetchBlockNumber(reply).Err? && FetchBlockNumber(reply).error.Transport?
    ensures reply.Ok? && Decode(reply.value.result).Err?
        ==> FetchBlockNumber(reply) == Err(Hex(Decode(reply.value.result).error))
  {
  }

  /** A reply carrying any u64 as "0x" + lower-case hex yields that number. */
  lemma FetchRoundTrip(n: U64)
    ensures FetchBlockNumber(Ok(RpcResponse("0x" + Encode(n, 16)))) == Ok(n)
  {
    DecodeRoundTrip(n);
  }
}
