/**
 * The two layers of the external base-62 library the codec is built on.
 *
 * The integer <-> numeral layer (`FormatInt` / `ParseInt`) is modelled
 * concretely: a non-negative integer is written as its base-62 digits, most
 * significant first, each digit d being the byte `digits[d]` of a 62-symbol
 * alphabet whose order is left abstract.
 *
 * The bytes <-> string layer (`EncodeToString` / `DecodeString`) is treated
 * as opaque: it is a pair of functions carried by a `Library` value, and its
 * round trip is the explicit assumption `Lawful`, which every result that
 * depends on it takes as a precondition.
 */
module Base62 {
  import opened Wrappers

  type byte = x: int | 0 <= x < 256

  /** The largest value of Go's `int64`. */
  const MaxInt64: int := 0x7FFF_FFFF_FFFF_FFFF

  /** 62 distinct byte symbols; digit d is written `digits[d]`. */
  ghost predicate ValidDigits(digits: seq<byte>) {
    |digits| == 62 && forall i, j :: 0 <= i < j < |digits| ==> digits[i] != digits[j]
  }

  /** Position of the first occurrence of `b` in the alphabet: the digit it stands for. */
  function IndexOf(digits: seq<byte>, b: byte): (d: nat)
    requires b in digits
    ensures d < |digits| && digits[d] == b
    ensures forall k :: 0 <= k < d ==> digits[k] != b
  {
    if digits[0] == b then 0 else 1 + IndexOf(digits[1..], b)
  }

  /** In an alphabet without repeated symbols, the symbol of digit k reads back as k. */
  lemma IndexOfDigit(digits: seq<byte>, k: nat)
    requires ValidDigits(digits) && k < |digits|
    ensures IndexOf(digits, digits[k]) == k
  {
  }

  /** `FormatInt` for a non-negative value: its base-62 numeral, no leading zero digits. */
  function FormatNat(digits: seq<byte>, n: nat): (numeral: seq<byte>)
    requires |digits| == 62
    ensures |numeral| >= 1
    ensures forall i :: 0 <= i < |numeral| ==> numeral[i] in digits
    decreases n
  {
    if n < 62 then [digits[n]] else FormatNat(digits, n / 62) + [digits[n % 62]]
  }

  /** True when every byte of `numeral` is a digit symbol. */
  predicate AllDigits(digits: seq<byte>, numeral: seq<byte>) {
    forall i :: 0 <= i < |numeral| ==> numeral[i] in digits
  }

  /** The value of a numeral whose bytes are all digit symbols. */
  function NumeralValue(digits: seq<byte>, numeral: seq<byte>): (v: nat)
    requires AllDigits(digits, numeral)
    ensures |digits| == 62 ==> v < Pow62(|numeral|)
  {
    if numeral == [] then 0
    else
      var init := numeral[..|numeral| - 1];
      assert AllDigits(digits, init) by {
        forall i | 0 <= i < |init| ensures init[i] in digits { assert init[i] == numeral[i]; }
      }
      62 * NumeralValue(digits, init) + IndexOf(digits, numeral[|numeral| - 1])
  }

  function Pow62(k: nat): (p: nat)
    ensures p >= 1
  {
    if k == 0 then 1 else 62 * Pow62(k - 1)
  }

  /**
   * `ParseInt`: fails on an empty numeral, on a byte that is not a digit
   * symbol, and on a value that does not fit in an `int64`.
   */
  function ParseInt(digits: seq<byte>, numeral: seq<byte>): (r: Option<int>)
    ensures r.Some? <==>
      |numeral| > 0 && AllDigits(digits, numeral) && NumeralValue(digits, numeral) <= MaxInt64
    ensures r.Some? ==> 0 <= r.value <= MaxInt64 && r.value == NumeralValue(digits, numeral)
  {
    if |numeral| == 0 || !AllDigits(digits, numeral) then None
    else
      var v := NumeralValue(digits, numeral);
      if v <= MaxInt64 then Some(v) else None
  }

  /** A numeral of more than one digit does not start with the zero digit. */
  lemma {:induction false} NoLeadingZero(digits: seq<byte>, n: nat)
    requires ValidDigits(digits)
    ensures |FormatNat(digits, n)| > 1 ==> FormatNat(digits, n)[0] != digits[0]
    decreases n
  {
    if n >= 62 {
      var p := FormatNat(digits, n / 62);
      assert FormatNat(digits, n) == p + [digits[n % 62]];
      assert FormatNat(digits, n)[0] == p[0];
      if |p| > 1 {
        NoLeadingZero(digits, n / 62);
      } else {
        assert p == [digits[n / 62]];
        assert n / 62 != 0;
      }
    }
  }

  /** Reading back a formatted numeral gives the value that was formatted. */
  lemma {:induction false} NumeralRoundTrip(digits: seq<byte>, n: nat)
    requires ValidDigits(digits)
    ensures NumeralValue(digits, FormatNat(digits, n)) == n
    decreases n
  {
    var s := FormatNat(digits, n);
    if n < 62 {
      assert s[..|s| - 1] == [];
      IndexOfDigit(digits, n);
    } else {
      var p := FormatNat(digits, n / 62);
      assert s == p + [digits[n % 62]];
      assert s[..|s| - 1] == p;
      NumeralRoundTrip(digits, n / 62);
      IndexOfDigit(digits, n % 62);
    }
  }

  /** `ParseInt(FormatInt(n)) == n` for every non-negative `int64`. */
  lemma ParseFormat(digits: seq<byte>, n: nat)
    requires ValidDigits(digits) && n <= MaxInt64
    ensures ParseInt(digits, FormatNat(digits, n)) == Some(n)
  {
    NumeralRoundTrip(digits, n);
  }

  /** A value of at least 62^k needs more than k digits. */
  lemma {:induction false} FormatNatLength(digits: seq<byte>, n: nat, k: nat)
    requires |digits| == 62 && Pow62(k) <= n
    ensures |FormatNat(digits, n)| > k
    decreases k
  {
    if k > 0 {
      assert n >= 62;
      assert Pow62(k - 1) <= n / 62;
      FormatNatLength(digits, n / 62, k - 1);
    }
  }

  /** The 62 characters a base-62 string is written in. */
  predicate IsBase62Char(c: char) {
    ('0' <= c <= '9') || ('a' <= c <= 'z') || ('A' <= c <= 'Z')
  }

  predicate AllBase62(s: string) {
    forall i :: 0 <= i < |s| ==> IsBase62Char(s[i])
  }

  /**
   * The base-62 library: the digit alphabet of its numerals and its
   * bytes <-> string codec (`EncodeToString`, `DecodeString`; `None` is a
   * decoding error).
   */
  datatype Library = Library(
    digits: seq<byte>,
    encodeBytes: seq<byte> -> string,
    decodeString: string -> Option<seq<byte>>)

  /**
   * What the model assumes of the library: its alphabet is 62 distinct
   * alphanumeric symbols, `DecodeString` undoes `EncodeToString`, `DecodeString` accepts
   * only strings written in base-62 characters, and a string encoding at
   * least four bytes is at least six characters long (a base-62 character
   * carries less than six bits, so 32 bits need six of them).
   */
  ghost predicate Lawful(lib: Library) {
    && ValidDigits(lib.digits)
    && (forall i :: 0 <= i < |lib.digits| ==> IsBase62Char(lib.digits[i] as char))
    && (forall bs :: lib.decodeString(lib.encodeBytes(bs)) == Some(bs))
    && (forall s :: lib.decodeString(s).Some? ==> AllBase62(s))
    && (forall bs :: |bs| >= 4 ==> |lib.encodeBytes(bs)| >= 6)
  }

  // A library that meets the assumption, so that `Lawful` is not vacuous:
  // numeral digits are 0-9, A-Z, a-z, and each byte is written as two hex characters.

  function StdDigit(i: int): (d: byte)
    requires 0 <= i < 62
    ensures IsBase62Char(d as char)
  {
    if i < 10 then 48 + i else if i < 36 then 65 + i - 10 else 97 + i - 36
  }

  function HexChar(d: int): (c: char)
    requires 0 <= d < 16
    ensures IsBase62Char(c)
  {
    if d < 10 then (48 + d) as char else (97 + d - 10) as char
  }

  function HexValue(c: char): (r: Option<int>)
    ensures r.Some? ==> 0 <= r.value < 16 && IsBase62Char(c)
  {
    if '0' <= c <= '9' then Some(c as int - 48)
    else if 'a' <= c <= 'f' then Some(c as int - 97 + 10)
    else None
  }

  lemma HexValueOfChar(d: int)
    requires 0 <= d < 16
    ensures HexValue(HexChar(d)) == Some(d)
  {
  }

  function HexEncode(bs: seq<byte>): (s: string)
    ensures |s| == 2 * |bs|
  {
    if bs == [] then [] else [HexChar(bs[0] / 16), HexChar(bs[0] % 16)] + HexEncode(bs[1..])
  }

  function HexDecode(s: string): Option<seq<byte>>
    decreases |s|
  {
    if s == [] then Some([])
    else if |s| == 1 then None
    else PrependHex(HexValue(s[0]), HexValue(s[1]), HexDecode(s[2..]))
  }

  /** The byte written by two hex digits, before the bytes decoded from the rest. */
  function PrependHex(high: Option<int>, low: Option<int>, rest: Option<seq<byte>>): Option<seq<byte>>
    requires high.Some? ==> 0 <= high.value < 16
    requires low.Some? ==> 0 <= low.value < 16
  {
    if high.Some? && low.Some? && rest.Some? then Some([(high.value * 16 + low.value) as byte] + rest.value)
    else None
  }

  /** Decoding a string that starts with two hex characters. */
  lemma HexDecodeCons(h: int, l: int, rest: string)
    requires 0 <= h < 16 && 0 <= l < 16
    ensures HexDecode([HexChar(h), HexChar(l)] + rest) == PrependHex(Some(h), Some(l), HexDecode(rest))
  {
    var s := [HexChar(h), HexChar(l)] + rest;
    assert s[0] == HexChar(h) && s[1] == HexChar(l) && s[2..] == rest;
    HexValueOfChar(h);
    HexValueOfChar(l);
  }

  lemma {:induction false} HexRoundTrip(bs: seq<byte>)
    ensures HexDecode(HexEncode(bs)) == Some(bs)
  {
    if bs != [] {
      var h, l := bs[0] / 16, bs[0] % 16;
      assert HexEncode(bs) == [HexChar(h), HexChar(l)] + HexEncode(bs[1..]);
      HexDecodeCons(h, l, HexEncode(bs[1..]));
      HexRoundTrip(bs[1..]);
      assert h * 16 + l == bs[0];
      assert bs == [bs[0]] + bs[1..];
    }
  }

  lemma {:induction false} HexDecodeAlphabet(s: string)
    requires HexDecode(s).Some?
    ensures AllBase62(s)
    decreases |s|
  {
    if |s| >= 2 {
      HexDecodeAlphabet(s[2..]);
      forall i | 2 <= i < |s| ensures IsBase62Char(s[i]) { assert s[i] == s[2..][i - 2]; }
    }
  }

  lemma LawfulIsSatisfiable()
    ensures exists lib :: Lawful(lib)
  {
    var digits := seq(62, i requires 0 <= i < 62 => StdDigit(i));
    var lib := Library(digits, HexEncode, HexDecode);
    forall bs ensures lib.decodeString(lib.encodeBytes(bs)) == Some(bs) { HexRoundTrip(bs); }
    forall s | lib.decodeString(s).Some? ensures AllBase62(s) { HexDecodeAlphabet(s); }
    assert forall bs :: |bs| >= 4 ==> |lib.encodeBytes(bs)| >= 6;
    assert Lawful(lib);
  }
}
