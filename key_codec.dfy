/**
 * Decoding of market ids from storage keys (`Models.getAllMarketIds`).
 *
 * A key of the `predictionMarkets.markets` map ends with the market id
 * written as a 16-byte (u128) little-endian integer, in hex. The SDK keeps
 * the last 32 hex characters, swaps their byte order to big-endian and
 * parses the result as a base-16 number.
 */
module KeyCodec {
  import opened Wrappers
  import opened JsString

  /** Hex digits (code units) of the id at the end of a storage key. */
  const SuffixLength: nat := 32
  /** Width of a market id in bytes. */
  const IdBytes: nat := 16
  /** 2^128: market ids are u128 values. */
  const IdLimit: nat := 0x1_0000_0000_0000_0000_0000_0000_0000_0000

  function Pow(base: nat, exp: nat): (r: nat)
    ensures 0 < base ==> 0 < r
  {
    if exp == 0 then 1 else base * Pow(base, exp - 1)
  }

  /** The value of one hex digit; both letter cases are accepted. */
  function DigitValue(c: CodeUnit): Option<nat>
  {
    if '0' as int <= c <= '9' as int then Some(c - '0' as int)
    else if 'a' as int <= c <= 'f' as int then Some(c - 'a' as int + 10)
    else if 'A' as int <= c <= 'F' as int then Some(c - 'A' as int + 10)
    else None
  }

  predicate IsHex(s: JsText)
  {
    forall i :: 0 <= i < |s| ==> DigitValue(s[i]).Some?
  }

  predicate IsLowerHexDigit(c: CodeUnit)
  {
    '0' as int <= c <= '9' as int || 'a' as int <= c <= 'f' as int
  }

  predicate IsLowerHex(s: JsText)
  {
    forall i :: 0 <= i < |s| ==> IsLowerHexDigit(s[i])
  }

  /** The lower-case hex digit for `d`. */
  function HexDigit(d: nat): (c: CodeUnit)
    requires d < 16
    ensures IsLowerHexDigit(c) && DigitValue(c) == Some(d)
  {
    if d < 10 then '0' as int + d else 'a' as int + d - 10
  }

  /** Base-16 value of a hex string, most significant digit first ("" is 0). */
  function HexValue(s: JsText): (n: nat)
    requires IsHex(s)
    ensures n < Pow(16, |s|)
  {
    if s == [] then 0
    else
      var d := DigitValue(s[|s| - 1]).value;
      var m := HexValue(s[..|s| - 1]);
      assert m * 16 + d < Pow(16, |s|) by {
        assert m + 1 <= Pow(16, |s| - 1);
        assert (m + 1) * 16 <= Pow(16, |s| - 1) * 16;
      }
      m * 16 + d
  }

  /**
   * `changeEndianness`: reverse the order of the two-character byte groups
   * of a hex string.
   */
  function ChangeEndianness(s: JsText): (r: JsText)
    requires |s| % 2 == 0
    ensures |r| == |s|
    ensures IsHex(s) ==> IsHex(r)
    ensures IsLowerHex(s) ==> IsLowerHex(r)
  {
    if s == [] then [] else ChangeEndianness(s[2..]) + s[..2]
  }

  /**
   * The id carried by one storage key, or None for a suffix that is not
   * whole bytes of hex digits: the suffix is the last 32 characters (the
   * whole key if it is shorter).
   */
  function DecodeKey(key: JsText): (r: Option<nat>)
    ensures var suffix := SliceFrom(key, -(SuffixLength as int));
            r.Some? <==> |suffix| % 2 == 0 && IsHex(suffix)
    ensures r.Some? ==> r.value < IdLimit
  {
    var suffix := SliceFrom(key, -(SuffixLength as int));
    if |suffix| % 2 == 0 && IsHex(suffix) then
      SuffixValueBound(|suffix|);
      Some(HexValue(ChangeEndianness(suffix)))
    else None
  }

  /**
   * `getAllMarketIds` after the key listing: decode every key in order;
   * the first key that does not decode rejects the whole call.
   */
  function DecodeKeys(keys: seq<JsText>): (r: Result<seq<nat>, JsText>)
    ensures r.Success? <==> forall i :: 0 <= i < |keys| ==> DecodeKey(keys[i]).Some?
    ensures r.Success? ==> |r.value| == |keys|
    ensures r.Success? ==>
              forall i :: 0 <= i < |keys| ==> DecodeKey(keys[i]) == Some(r.value[i])
    ensures r.Failure? ==>
              exists i :: (0 <= i < |keys| && DecodeKey(keys[i]).None? && r.error == keys[i]
                           && forall j :: 0 <= j < i ==> DecodeKey(keys[j]).Some?)
  {
    if keys == [] then Success([])
    else
      match DecodeKey(keys[0])
      case None => Failure(keys[0])
      case Some(id) =>
        match DecodeKeys(keys[1..])
        case Failure(bad) =>
          assert forall j :: 1 <= j < |keys| ==> keys[j] == keys[1..][j - 1];
          Failure(bad)
        case Success(rest) =>
          assert forall j :: 1 <= j < |keys| ==> keys[j] == keys[1..][j - 1];
          Success([id] + rest)
  }

  // ----- The chain's side: a u128 id as 16 little-endian bytes in hex -----

  /** One byte as two lower-case hex digits, high nibble first. */
  function ByteHex(b: nat): (r: JsText)
    requires b < 256
    ensures |r| == 2 && IsLowerHex(r)
  {
    [HexDigit(b / 16), HexDigit(b % 16)]
  }

  /** The low `k` bytes of `id`, least significant byte first, as hex. */
  function LeHex(id: nat, k: nat): (r: JsText)
    ensures |r| == 2 * k && IsLowerHex(r) && IsHex(r)
  {
    if k == 0 then [] else ByteHex(id % 256) + LeHex(id / 256, k - 1)
  }

  /** The chain's key suffix for a market id: its 16 little-endian bytes in hex. */
  function EncodeId(id: nat): (r: JsText)
    ensures |r| == SuffixLength && IsLowerHex(r)
  {
    LeHex(id, IdBytes)
  }

  /** The low `k` bytes of `id`, most significant byte first, as hex. */
  function BeHex(id: nat, k: nat): (r: JsText)
    ensures |r| == 2 * k && IsLowerHex(r) && IsHex(r)
  {
    if k == 0 then [] else BeHex(id / 256, k - 1) + ByteHex(id % 256)
  }

  // ----- Properties -----

  lemma {:induction false} ChangeEndiannessAppend(a: JsText, b: JsText)
    requires |a| % 2 == 0 && |b| % 2 == 0
    ensures ChangeEndianness(a + b) == ChangeEndianness(b) + ChangeEndianness(a)
  {
    if a != [] {
      assert (a + b)[2..] == a[2..] + b;
      assert (a + b)[..2] == a[..2];
      ChangeEndiannessAppend(a[2..], b);
    } else {
      assert a + b == b;
    }
  }

  /** Swapping the byte order twice gives back the original text. */
  lemma {:induction false} ChangeEndiannessInvolution(s: JsText)
    requires |s| % 2 == 0
    ensures ChangeEndianness(ChangeEndianness(s)) == s
  {
    if s != [] {
      var t := ChangeEndianness(s[2..]);
      ChangeEndiannessAppend(t, s[..2]);
      ChangeEndiannessInvolution(s[2..]);
      assert ChangeEndianness(s[..2]) == s[..2] by {
        assert s[..2][2..] == [];
      }
      assert s[..2] + s[2..] == s;
    }
  }

  /** Swapping the byte order of the little-endian text gives the big-endian text. */
  lemma {:induction false} LeHexReversed(id: nat, k: nat)
    ensures ChangeEndianness(LeHex(id, k)) == BeHex(id, k)
  {
    if k > 0 {
      var s := LeHex(id, k);
      assert s[2..] == LeHex(id / 256, k - 1);
      assert s[..2] == ByteHex(id % 256);
      LeHexReversed(id / 256, k - 1);
    }
  }

  lemma HexValueAppendByte(a: JsText, b: nat)
    requires IsHex(a) && b < 256
    ensures IsHex(a + ByteHex(b)) && HexValue(a + ByteHex(b)) == HexValue(a) * 256 + b
  {
    var s := a + ByteHex(b);
    assert s[..|s| - 1] == a + [HexDigit(b / 16)];
    assert (a + [HexDigit(b / 16)])[..|a|] == a;
    calc {
      HexValue(s);
      HexValue(a + [HexDigit(b / 16)]) * 16 + b % 16;
      (HexValue(a) * 16 + b / 16) * 16 + b % 16;
      HexValue(a) * 256 + (b / 16) * 16 + b % 16;
    }
  }

  /** Parsing the big-endian text of a `k`-byte id gives back the id. */
  lemma {:induction false} BeHexValue(id: nat, k: nat)
    requires id < Pow(256, k)
    ensures HexValue(BeHex(id, k)) == id
  {
    if k > 0 {
      assert id / 256 < Pow(256, k - 1) by {
        assert id < 256 * Pow(256, k - 1);
      }
      BeHexValue(id / 256, k - 1);
      HexValueAppendByte(BeHex(id / 256, k - 1), id % 256);
    }
  }

  lemma LowerDigitRoundTrip(c: CodeUnit)
    requires IsLowerHexDigit(c)
    ensures DigitValue(c).Some? && DigitValue(c).value < 16 && HexDigit(DigitValue(c).value) == c
  {
  }

  lemma ByteDivMod(q: nat, b: nat)
    requires b < 256
    ensures (q * 256 + b) / 256 == q && (q * 256 + b) % 256 == b
  {
  }

  lemma LowerHexIsHex(t: JsText)
    requires IsLowerHex(t)
    ensures IsHex(t)
  {
    forall i | 0 <= i < |t| ensures DigitValue(t[i]).Some? {
      LowerDigitRoundTrip(t[i]);
    }
  }

  /** The last two lower-case digits of a text are the hex of their byte value. */
  lemma LastByte(t: JsText) returns (b: nat)
    requires 2 <= |t| && IsLowerHex(t)
    ensures b < 256 && t == t[..|t| - 2] + ByteHex(b)
  {
    var x, y := t[|t| - 2], t[|t| - 1];
    LowerDigitRoundTrip(x);
    LowerDigitRoundTrip(y);
    var dx, dy := DigitValue(x).value, DigitValue(y).value;
    b := dx * 16 + dy;
    ByteDivMod(dx, dy);
    assert ByteHex(b) == [x, y];
  }

  /** Formatting the value of a lower-case big-endian text gives the text back. */
  lemma {:induction false} HexValueBeHex(t: JsText, k: nat)
    requires |t| == 2 * k && IsLowerHex(t)
    ensures IsHex(t) && BeHex(HexValue(t), k) == t
  {
    LowerHexIsHex(t);
    if k > 0 {
      var a := t[..|t| - 2];
      assert IsLowerHex(a);
      var b := LastByte(t);
      LowerHexIsHex(a);
      HexValueBeHex(a, k - 1);
      HexValueAppendByte(a, b);
      var n := HexValue(t);
      assert n == HexValue(a) * 256 + b;
      ByteDivMod(HexValue(a), b);
      calc {
        BeHex(n, k);
        BeHex(n / 256, k - 1) + ByteHex(n % 256);
        BeHex(HexValue(a), k - 1) + ByteHex(b);
        a + ByteHex(b);
      }
    }
  }

  lemma {:induction false} PowAdd(base: nat, m: nat, n: nat)
    ensures Pow(base, m + n) == Pow(base, m) * Pow(base, n)
  {
    if m > 0 {
      PowAdd(base, m - 1, n);
      assert Pow(base, m + n) == base * Pow(base, m - 1 + n);
    }
  }

  lemma {:induction false} PowMonotone(base: nat, a: nat, b: nat)
    requires 0 < base && a <= b
    ensures Pow(base, a) <= Pow(base, b)
  {
    if a < b {
      PowMonotone(base, a, b - 1);
      assert Pow(base, b) == base * Pow(base, b - 1);
    }
  }

  /** Any value of at most 32 hex digits is below 2^128. */
  lemma SuffixValueBound(n: nat)
    requires n <= SuffixLength
    ensures Pow(16, n) <= IdLimit
  {
    PowMonotone(16, n, SuffixLength);
    PowSquare(IdBytes);
    IdLimitIsPow();
  }

  lemma {:induction false} PowSquare(k: nat)
    ensures Pow(16, 2 * k) == Pow(256, k)
  {
    if k > 0 {
      PowSquare(k - 1);
      assert Pow(16, 2 * k) == 16 * (16 * Pow(16, 2 * (k - 1)));
    }
  }

  /** Only the last 32 characters of a key take part in decoding. */
  lemma KeyDecodingUsesSuffixOnly(prefix: JsText, suffix: JsText)
    requires |suffix| == SuffixLength
    ensures DecodeKey(prefix + suffix) == DecodeKey(suffix)
  {
    var key := prefix + suffix;
    assert SliceFrom(key, -(SuffixLength as int)) == suffix by {
      assert key[|prefix|..] == suffix;
    }
    assert SliceFrom(suffix, -(SuffixLength as int)) == suffix by {
      assert suffix[0..] == suffix;
    }
  }

  lemma IdLimitIsPow()
    ensures Pow(256, IdBytes) == IdLimit
  {
    assert Pow(256, 2) == 0x1_0000;
    assert Pow(256, 4) == 0x1_0000_0000 by { PowAdd(256, 2, 2); }
    assert Pow(256, 8) == 0x1_0000_0000_0000_0000 by { PowAdd(256, 4, 4); }
    PowAdd(256, 8, 8);
  }

  /**
   * Round trip: a key that ends with the chain's encoding of an id below
   * 2^128 decodes to that id, whatever precedes the encoding.
   */
  lemma DecodeKeyRoundTrip(prefix: JsText, id: nat)
    requires id < IdLimit
    ensures DecodeKey(prefix + EncodeId(id)) == Some(id)
  {
    var suffix := EncodeId(id);
    KeyDecodingUsesSuffixOnly(prefix, suffix);
    assert SliceFrom(suffix, -(SuffixLength as int)) == suffix by {
      assert suffix[0..] == suffix;
    }
    LeHexReversed(id, IdBytes);
    IdLimitIsPow();
    BeHexValue(id, IdBytes);
  }

  /**
   * The other direction: every 32-character lower-case hex suffix decodes,
   * and encoding the decoded id gives the suffix back. Decoding is thus a
   * bijection between such suffixes and the ids below 2^128.
   */
  lemma EncodeDecodedKey(suffix: JsText)
    requires |suffix| == SuffixLength && IsLowerHex(suffix)
    ensures DecodeKey(suffix).Some?
    ensures DecodeKey(suffix).value < IdLimit
    ensures EncodeId(DecodeKey(suffix).value) == suffix
  {
    assert SliceFrom(suffix, -(SuffixLength as int)) == suffix by {
      assert suffix[0..] == suffix;
    }
    LowerHexIsHex(suffix);
    var be := ChangeEndianness(suffix);
    HexValueBeHex(be, IdBytes);
    var id := HexValue(be);
    assert DecodeKey(suffix) == Some(id);
    var le := LeHex(id, IdBytes);
    LeHexReversed(id, IdBytes);
    ChangeEndiannessInvolution(le);
    ChangeEndiannessInvolution(suffix);
    calc {
      EncodeId(id);
      le;
      ChangeEndianness(ChangeEndianness(le));
      ChangeEndianness(BeHex(id, IdBytes));
      ChangeEndianness(be);
      suffix;
    }
  }
}
