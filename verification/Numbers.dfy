/** Fixed-width number encoding (`common/p4runtime_lib/convert.py`).

    The program writes a number as hexadecimal digits, pads the text on the left to the width of the
    field and reads the digits back in pairs; decoding goes through the same text.  Both directions are
    modelled digit by digit. */
module Numbers {
  newtype byte = x: int | 0 <= x < 256

  datatype EncodeResult = Encoded(bytes: seq<byte>) | DoesNotFit | NotHexadecimal

  function Pow2(n: nat): nat {
    if n == 0 then 1 else 2 * Pow2(n - 1)
  }

  /** ceil(bitwidth / 8). */
  function BitwidthToBytes(bitwidth: nat): nat {
    (bitwidth + 7) / 8
  }

  predicate IsHex(ds: seq<nat>) {
    forall i :: 0 <= i < |ds| ==> ds[i] < 16
  }

  /** The digits of `'%x' % n`: no leading zero, except for zero itself. */
  function HexDigits(n: nat): (ds: seq<nat>)
    ensures |ds| > 0 && IsHex(ds)
  {
    if n < 16 then [n] else HexDigits(n / 16) + [n % 16]
  }

  /** The value of a digit text read in base 16. */
  function HexValue(ds: seq<nat>): nat {
    if ds == [] then 0 else 16 * HexValue(ds[..|ds| - 1]) + ds[|ds| - 1]
  }

  function Zeros(n: nat): (ds: seq<nat>)
    ensures |ds| == n && IsHex(ds)
  {
    seq(n, _ => 0)
  }

  /** Zeros on the left up to `width`; a longer text is left alone. */
  function Padded(ds: seq<nat>, width: nat): (r: seq<nat>)
    requires IsHex(ds)
    ensures IsHex(r) && |r| == if |ds| < width then width else |ds|
  {
    if |ds| < width then Zeros(width - |ds|) + ds else ds
  }

  /** `bytes.fromhex` on an even number of digits. */
  function FromHex(ds: seq<nat>): (bs: seq<byte>)
    requires |ds| % 2 == 0 && IsHex(ds)
    ensures |bs| == |ds| / 2
  {
    seq(|ds| / 2, i requires 0 <= i < |ds| / 2 => (16 * ds[2 * i] + ds[2 * i + 1]) as byte)
  }

  /** `bytes.hex`. */
  function ToHex(bs: seq<byte>): (ds: seq<nat>)
    ensures |ds| == 2 * |bs| && IsHex(ds)
  {
    seq(2 * |bs|, i requires 0 <= i < 2 * |bs| =>
      if i % 2 == 0 then bs[i / 2] as nat / 16 else bs[i / 2] as nat % 16)
  }

  /** A negative number prints with a minus sign, and width 0 leaves an odd digit: both are rejected
      by `fromhex`. */
  function EncodeNum(number: int, bitwidth: nat): EncodeResult {
    if number >= Pow2(bitwidth) then DoesNotFit
    else if number < 0 then NotHexadecimal
    else
      var text := HexDigits(number);
      var width := 2 * BitwidthToBytes(bitwidth);
      var padded := Padded(text, width);
      if |padded| % 2 == 0 then Encoded(FromHex(padded)) else NotHexadecimal
  }

  function DecodeNum(bs: seq<byte>): nat {
    HexValue(ToHex(bs))
  }

  /** Independent reading of a byte string: big-endian, base 256. */
  function BigEndian(bs: seq<byte>): nat {
    if bs == [] then 0 else 256 * BigEndian(bs[..|bs| - 1]) + bs[|bs| - 1] as nat
  }

  lemma {:induction false} HexValueOfDigits(n: nat)
    ensures HexValue(HexDigits(n)) == n
  {
    if n >= 16 {
      HexValueOfDigits(n / 16);
      assert HexDigits(n)[..|HexDigits(n)| - 1] == HexDigits(n / 16);
    } else {
      assert HexDigits(n)[..0] == [];
    }
  }

  lemma {:induction false} HexDigitsFit(n: nat, k: nat)
    requires k > 0 && n < Pow2(4 * k)
    ensures |HexDigits(n)| <= k
  {
    if n >= 16 {
      assert Pow2(4 * k) == 2 * Pow2(4 * k - 1) == 4 * Pow2(4 * k - 2) == 8 * Pow2(4 * k - 3) == 16 * Pow2(4 * k - 4);
      assert k > 1 by {
        assert Pow2(0) == 1;
      }
      HexDigitsFit(n / 16, k - 1);
    }
  }

  lemma {:induction false} Pow2Grows(m: nat, n: nat)
    requires m <= n
    ensures Pow2(m) <= Pow2(n)
  {
    if m < n {
      Pow2Grows(m, n - 1);
    }
  }

  lemma {:induction false} DigitsFitWidth(n: nat, bitwidth: nat)
    requires bitwidth >= 1 && n < Pow2(bitwidth)
    ensures |HexDigits(n)| <= 2 * BitwidthToBytes(bitwidth)
  {
    var width := 2 * BitwidthToBytes(bitwidth);
    Pow2Grows(bitwidth, 4 * width);
    HexDigitsFit(n, width);
  }

  lemma {:induction false} LeadingZeros(k: nat, ds: seq<nat>)
    ensures HexValue(Zeros(k) + ds) == HexValue(ds)
  {
    var all := Zeros(k) + ds;
    if ds != [] {
      assert all[..|all| - 1] == Zeros(k) + ds[..|ds| - 1];
      LeadingZeros(k, ds[..|ds| - 1]);
    } else if k > 0 {
      assert all[..|all| - 1] == Zeros(k - 1) + [];
      LeadingZeros(k - 1, []);
    } else {
      assert all == [];
    }
  }

  lemma {:induction false} HexRoundTrip(ds: seq<nat>)
    requires |ds| % 2 == 0 && IsHex(ds)
    ensures ToHex(FromHex(ds)) == ds
  {
    forall i | 0 <= i < |ds|
      ensures ToHex(FromHex(ds))[i] == ds[i]
    {
      var n := i / 2;
      Halves(ds[2 * n], ds[2 * n + 1]);
      assert FromHex(ds)[n] as nat == 16 * ds[2 * n] + ds[2 * n + 1];
      assert i == 2 * n || i == 2 * n + 1;
    }
  }

  lemma {:induction false} Halves(high: nat, low: nat)
    requires low < 16
    ensures (16 * high + low) / 16 == high && (16 * high + low) % 16 == low
  {
  }

  lemma {:induction false} LeastBytes(bitwidth: nat)
    ensures 8 * (BitwidthToBytes(bitwidth) - 1) < bitwidth <= 8 * BitwidthToBytes(bitwidth) || bitwidth == 0
  {
  }

  /** Encoding succeeds exactly on the numbers of the width; the result has the width of the field and
      decodes to the number. */
  lemma {:induction false} EncodeDecode(number: int, bitwidth: nat)
    requires bitwidth >= 1
    ensures EncodeNum(number, bitwidth).Encoded? <==> 0 <= number < Pow2(bitwidth)
    ensures EncodeNum(number, bitwidth).Encoded? ==>
      && 8 * (|EncodeNum(number, bitwidth).bytes| - 1) < bitwidth <= 8 * |EncodeNum(number, bitwidth).bytes|
      && DecodeNum(EncodeNum(number, bitwidth).bytes) == number
  {
    if 0 <= number < Pow2(bitwidth) {
      var text := HexDigits(number);
      var width := 2 * BitwidthToBytes(bitwidth);
      DigitsFitWidth(number, bitwidth);
      LeastBytes(bitwidth);
      HexRoundTrip(Padded(text, width));
      if |text| < width {
        LeadingZeros(width - |text|, text);
      }
      HexValueOfDigits(number);
    }
  }

  /** Decoding reads the bytes most significant first. */
  lemma {:induction false} DecodeIsBigEndian(bs: seq<byte>)
    ensures DecodeNum(bs) == BigEndian(bs)
  {
    if bs != [] {
      var init := bs[..|bs| - 1];
      var ds := ToHex(bs);
      DecodeIsBigEndian(init);
      var short := ds[..|ds| - 1];
      assert short[..|short| - 1] == ToHex(init);
      assert HexValue(ds) == 16 * HexValue(short) + ds[|ds| - 1];
      assert HexValue(short) == 16 * HexValue(ToHex(init)) + short[|short| - 1];
    }
  }

  lemma {:induction false} SameLengthSameValue(a: seq<byte>, b: seq<byte>)
    requires |a| == |b| && BigEndian(a) == BigEndian(b)
    ensures a == b
  {
    if a != [] {
      SameLengthSameValue(a[..|a| - 1], b[..|b| - 1]);
      assert a == a[..|a| - 1] + [a[|a| - 1]];
      assert b == b[..|b| - 1] + [b[|b| - 1]];
    }
  }

  /** The encoded bytes are the only ones of that width that decode to the number, so comparing encoded
      values, as the allow-list test does, is the same as comparing numbers. */
  lemma {:induction false} EncodingIsInjective(number: int, bitwidth: nat, bs: seq<byte>)
    requires bitwidth >= 1 && 0 <= number < Pow2(bitwidth)
    ensures |bs| == BitwidthToBytes(bitwidth) && DecodeNum(bs) == number <==> EncodeNum(number, bitwidth) == Encoded(bs)
  {
    EncodeDecode(number, bitwidth);
    var enc := EncodeNum(number, bitwidth).bytes;
    if |bs| == BitwidthToBytes(bitwidth) && DecodeNum(bs) == number {
      DecodeIsBigEndian(bs);
      DecodeIsBigEndian(enc);
      SameLengthSameValue(bs, enc);
    }
  }
}
