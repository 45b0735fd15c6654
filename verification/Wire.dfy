/** Fixed-width numbers on the wire and the cursor that reads them (src/codec.rs). Floats are their
    bit patterns. */
module Wire {
  import opened Base

  function Power256(n: nat): nat {
    if n == 0 then 1 else 256 * Power256(n - 1)
  }

  /** The little-endian encoding of `value` in `width` bytes. */
  function LeBytes(value: nat, width: nat): (b: Bytes)
    ensures |b| == width
  {
    if width == 0 then [] else [value % 256] + LeBytes(value / 256, width - 1)
  }

  function LeValue(b: Bytes): nat {
    if b == [] then 0 else b[0] + 256 * LeValue(b[1..])
  }

  lemma {:induction false} LeValueOfBytes(value: nat, width: nat)
    requires value < Power256(width)
    ensures LeValue(LeBytes(value, width)) == value
  {
    if width > 0 {
      LeValueOfBytes(value / 256, width - 1);
      assert LeBytes(value, width)[1..] == LeBytes(value / 256, width - 1);
    }
  }

  lemma {:induction false} LeBytesOfValue(b: Bytes)
    ensures LeValue(b) < Power256(|b|)
    ensures LeBytes(LeValue(b), |b|) == b
  {
    if b != [] {
      LeBytesOfValue(b[1..]);
      assert LeValue(b) / 256 == LeValue(b[1..]) && LeValue(b) % 256 == b[0];
    }
  }

  /** The number of `width` bytes at some place in a message. */
  function Number(input: Bytes, at: nat, width: nat): nat
    requires at + width <= |input|
  {
    LeValue(input[at..at + width])
  }

  lemma ByteAt(input: Bytes, at: nat)
    requires at < |input|
    ensures Number(input, at, 1) == input[at]
  {
    var one := input[at..at + 1];
    assert one[1..] == [] && LeValue(one) == one[0] + 256 * LeValue(one[1..]);
  }

  /** The signed number with the same 32 bits. */
  function Int32(n: nat): int {
    if n < 0x8000_0000 then n else n - 0x1_0000_0000
  }

  lemma Regroup(weight: nat, value: nat)
    ensures 256 * (weight * value) == (256 * weight) * value
  {
  }

  /** Bytes that come later weigh more: each is worth 256 times the one before it. */
  lemma {:induction false} LeValueAppend(a: Bytes, b: Bytes)
    ensures LeValue(a + b) == LeValue(a) + Power256(|a|) * LeValue(b)
  {
    if a == [] {
      assert a + b == b;
    } else {
      assert (a + b)[1..] == a[1..] + b;
      LeValueAppend(a[1..], b);
      var low, weight, high := LeValue(a[1..]), Power256(|a| - 1), LeValue(b);
      assert LeValue(a + b) == a[0] + 256 * (low + weight * high);
      assert LeValue(a) == a[0] + 256 * low && Power256(|a|) == 256 * weight;
      hide LeValue, Power256;
      Regroup(weight, high);
    }
  }

  /** The big-endian encoding puts the bytes in the other order. */
  function BeBytes(value: nat, width: nat): (b: Bytes)
    ensures |b| == width
  {
    if width == 0 then [] else BeBytes(value / 256, width - 1) + [value % 256]
  }

  function BeValue(b: Bytes): nat {
    if b == [] then 0 else 256 * BeValue(b[..|b| - 1]) + b[|b| - 1]
  }

  lemma {:induction false} BeValueOfBytes(value: nat, width: nat)
    requires value < Power256(width)
    ensures BeValue(BeBytes(value, width)) == value
  {
    if width > 0 {
      BeValueOfBytes(value / 256, width - 1);
      assert BeBytes(value, width)[..width - 1] == BeBytes(value / 256, width - 1);
    }
  }

  lemma {:induction false} BeBytesOfValue(b: Bytes)
    ensures BeValue(b) < Power256(|b|)
    ensures BeBytes(BeValue(b), |b|) == b
  {
    if b != [] {
      BeBytesOfValue(b[..|b| - 1]);
      assert BeValue(b) / 256 == BeValue(b[..|b| - 1]) && BeValue(b) % 256 == b[|b| - 1];
    }
  }

  lemma Regrouped(high: nat, n: nat, low: nat, last: nat)
    requires n > 0
    ensures 256 * (high * Power256(n - 1) + low) + last == high * Power256(n) + (256 * low + last)
  {
    Regroup(Power256(n - 1), high);
  }

  /** Here the bytes that come earlier weigh more. */
  lemma {:induction false} BeValueAppend(a: Bytes, b: Bytes)
    ensures BeValue(a + b) == BeValue(a) * Power256(|b|) + BeValue(b)
  {
    if b == [] {
      assert a + b == a;
    } else {
      assert (a + b)[..|a + b| - 1] == a + b[..|b| - 1];
      BeValueAppend(a, b[..|b| - 1]);
      hide Power256;
      assert (a + b)[|a + b| - 1] == b[|b| - 1];
      Regrouped(BeValue(a), |b|, BeValue(b[..|b| - 1]), b[|b| - 1]);
    }
  }

  lemma Powers()
    ensures Power256(1) == 0x100 && Power256(2) == 0x1_0000 && Power256(4) == 0x1_0000_0000
    ensures Power256(8) == 0x1_0000_0000_0000_0000
  {
    assert Power256(4) == 256 * (256 * (256 * (256 * Power256(0))));
    assert Power256(8) == 256 * (256 * (256 * (256 * Power256(4))));
  }

  /** The two's-complement reading of an unsigned number of `width` bytes. */
  function Signed(value: nat, width: nat): int
    requires value < Power256(width)
  {
    if value < Power256(width) / 2 then value else value - Power256(width)
  }

  function Unsigned(value: int, width: nat): nat
    requires -(Power256(width) / 2) <= value < Power256(width) / 2
  {
    if value >= 0 then value else value + Power256(width)
  }

  lemma SignedInvertsUnsigned(value: int, width: nat)
    requires width > 0 && -(Power256(width) / 2) <= value < Power256(width) / 2
    ensures Unsigned(value, width) < Power256(width) && Signed(Unsigned(value, width), width) == value
  {
    assert Power256(width) == 256 * Power256(width - 1);
    hide Power256;
  }

  lemma UnsignedInvertsSigned(value: nat, width: nat)
    requires width > 0 && value < Power256(width)
    ensures -(Power256(width) / 2) <= Signed(value, width) < Power256(width) / 2
    ensures Signed(value, width) == value || Signed(value, width) == value - Power256(width)
    ensures Unsigned(Signed(value, width), width) == value
  {
    assert Power256(width) == 256 * Power256(width - 1);
    hide Power256;
  }

  lemma SignedInt32(n: nat)
    requires n < Power256(4)
    ensures Signed(n, 4) == Int32(n)
  {
    Powers();
  }

  datatype DecodeError =
    | UnexpectedEnd(needed: nat, remaining: nat)
    | InvalidLength(length: nat)
    | InvalidUtf8
    | TooFewValues
    | BadPercentage
    | TrailingBytes(count: nat)

  /** A cursor over a message. The ghost `parts` are the encodings of what has been read: laid end to
      end they are exactly the bytes consumed. */
  class Decoder {
    const input: Bytes
    var offset: nat
    ghost var parts: seq<Bytes>

    ghost predicate Valid()
      reads this
    {
      offset <= |input| && Concat(parts) == input[..offset]
    }

    constructor (input: Bytes)
      ensures Valid() && this.input == input && offset == 0 && parts == []
    {
      this.input, offset, parts := input, 0, [];
    }

    function Remaining(): nat
      requires Valid()
      reads this
    {
      |input| - offset
    }

    method Take(length: nat) returns (r: Result<Bytes, DecodeError>)
      requires Valid()
      modifies this
      ensures Valid()
      ensures old(Remaining()) < length ==>
                r == Failure(UnexpectedEnd(length, Remaining())) && unchanged(this)
      ensures length <= old(Remaining()) ==>
                && offset == old(offset) + length
                && r == Success(input[old(offset)..offset])
                && parts == old(parts) + [r.value]
    {
      var remaining := |input| - offset;
      if remaining < length {
        return Failure(UnexpectedEnd(length, remaining));
      }
      var start := offset;
      offset := offset + length;
      ConcatAppend(parts, [input[start..offset]]);
      assert Concat([input[start..offset]]) == input[start..offset];
      parts := parts + [input[start..offset]];
      r := Success(input[start..offset]);
    }

    /** Reads an unsigned number; the signed and floating-point readers differ only in how the caller
        sees its bits. */
    method ReadNumber(width: nat) returns (r: Result<nat, DecodeError>)
      requires Valid()
      modifies this
      ensures Valid()
      ensures old(Remaining()) < width ==>
                r == Failure(UnexpectedEnd(width, Remaining())) && unchanged(this)
      ensures width <= old(Remaining()) ==>
                && offset == old(offset) + width
                && r == Success(LeValue(input[old(offset)..offset]))
                && r.value < Power256(width)
                && parts == old(parts) + [LeBytes(r.value, width)]
    {
      var bytes :- Take(width);
      LeBytesOfValue(bytes);
      r := Success(LeValue(bytes));
    }

    /** Reads a length of four bytes and then that many bytes, checking the limit in between. */
    method ReadVecLimited(maximum: nat) returns (r: Result<Bytes, DecodeError>)
      requires Valid()
      modifies this
      ensures Valid()
      ensures r.Success? <==>
                && old(Remaining()) >= 4
                && var n := LeValue(input[old(offset)..old(offset) + 4]);
                   n <= maximum && old(Remaining()) >= 4 + n
      ensures r.Success? ==>
                && |r.value| == LeValue(input[old(offset)..old(offset) + 4]) < Power256(4)
                && offset == old(offset) + 4 + |r.value|
                && r.value == input[old(offset) + 4..offset]
                && parts == old(parts) + [LeBytes(|r.value|, 4), r.value]
      ensures old(Remaining()) >= 4 && LeValue(input[old(offset)..old(offset) + 4]) > maximum ==>
                r == Failure(InvalidLength(LeValue(input[old(offset)..old(offset) + 4])))
    {
      var length :- ReadNumber(4);
      if length > maximum {
        return Failure(InvalidLength(length));
      }
      var bytes :- Take(length);
      r := Success(bytes);
    }

    method Finish() returns (r: Result<(), DecodeError>)
      requires Valid()
      ensures r == if Remaining() == 0 then Success(()) else Failure(TrailingBytes(Remaining()))
    {
      r := if |input| - offset == 0 then Success(()) else Failure(TrailingBytes(|input| - offset));
    }
  }

  function Total(widths: seq<nat>): nat {
    if widths == [] then 0 else Total(widths[..|widths| - 1]) + widths[|widths| - 1]
  }

  /** Each number fits its width. */
  ghost predicate Fits(values: seq<nat>, widths: seq<nat>) {
    |values| == |widths| && forall i | 0 <= i < |values| :: values[i] < Power256(widths[i])
  }

  function NumberParts(values: seq<nat>, widths: seq<nat>): (parts: seq<Bytes>)
    requires |values| == |widths|
  {
    seq(|values|, i requires 0 <= i < |values| => LeBytes(values[i], widths[i]))
  }

  lemma {:induction false} TotalGrows(widths: seq<nat>, i: nat)
    requires i <= |widths|
    ensures Total(widths[..i]) <= Total(widths)
    decreases |widths| - i
  {
    if i == |widths| {
      assert widths[..i] == widths;
    } else {
      assert widths[..i + 1][..i] == widths[..i];
      TotalGrows(widths, i + 1);
    }
  }

  /** Readers called one after another, for numbers of the given widths. */
  method ReadNumbers(decoder: Decoder, widths: seq<nat>) returns (r: Result<seq<nat>, DecodeError>)
    requires decoder.Valid()
    modifies decoder
    ensures decoder.Valid()
    ensures r.Success? <==> old(decoder.Remaining()) >= Total(widths)
    ensures r.Success? ==>
              && decoder.offset == old(decoder.offset) + Total(widths)
              && |r.value| == |widths| && Fits(r.value, widths)
              && decoder.parts == old(decoder.parts) + NumberParts(r.value, widths)
    ensures r.Failure? ==> r.error.UnexpectedEnd?
  {
    hide LeValue, LeBytes, Concat, Power256;
    var values: seq<nat> := [];
    for i := 0 to |widths|
      invariant decoder.Valid()
      invariant decoder.offset == old(decoder.offset) + Total(widths[..i])
      invariant Fits(values, widths[..i])
      invariant decoder.parts == old(decoder.parts) + NumberParts(values, widths[..i])
    {
      assert widths[..i + 1][..i] == widths[..i];
      var read := decoder.ReadNumber(widths[i]);
      if read.Failure? {
        TotalGrows(widths, i + 1);
        return Failure(read.error);
      }
      values := values + [read.value];
    }
    assert widths[..|widths|] == widths;
    r := Success(values);
  }

  lemma TotalStep(widths: seq<nat>, i: nat)
    requires i < |widths|
    ensures Total(widths[..i + 1]) == Total(widths[..i]) + widths[i]
  {
    assert widths[..i + 1][..i] == widths[..i];
  }

  lemma {:induction false} NumbersLength(values: seq<nat>, widths: seq<nat>)
    requires |values| == |widths|
    ensures |Concat(NumberParts(values, widths))| == Total(widths)
    decreases |values|
  {
    if values != [] {
      var n := |values| - 1;
      NumbersLength(values[..n], widths[..n]);
      var parts, last := NumberParts(values[..n], widths[..n]), [LeBytes(values[n], widths[n])];
      assert NumberParts(values, widths) == parts + last;
      ConcatAppend(parts, last);
      assert Concat(last) == last[0];
    }
  }

  lemma NumbersSplit(values: seq<nat>, widths: seq<nat>, i: nat)
    requires |values| == |widths| && i < |values|
    ensures NumberParts(values, widths)
            == NumberParts(values[..i], widths[..i]) + [LeBytes(values[i], widths[i])]
               + NumberParts(values[i + 1..], widths[i + 1..])
  {
  }

  /** Each number lies on the wire behind those before it. */
  lemma NumberAt(values: seq<nat>, widths: seq<nat>, i: nat)
    requires Fits(values, widths) && i < |values|
    ensures var at, all := Total(widths[..i]), Concat(NumberParts(values, widths));
            at + widths[i] <= |all| && Number(all, at, widths[i]) == values[i]
  {
    LeValueOfBytes(values[i], widths[i]);
    NumbersSplit(values, widths, i);
    NumbersLength(values[..i], widths[..i]);
    var before, number := NumberParts(values[..i], widths[..i]), [LeBytes(values[i], widths[i])];
    var after := NumberParts(values[i + 1..], widths[i + 1..]);
    ConcatAppend(before + number, after);
    ConcatAppend(before, number);
    assert Concat(number) == number[0];
    hide Total, LeBytes, LeValue, NumberParts, Concat, Power256;
    var all := Concat(before) + number[0] + Concat(after);
    assert all[|Concat(before)|..|Concat(before)| + widths[i]] == number[0];
  }

  lemma {:induction false} SameNumbers(a: seq<nat>, b: seq<nat>, widths: seq<nat>)
    requires Fits(a, widths) && Fits(b, widths)
    requires Concat(NumberParts(a, widths)) == Concat(NumberParts(b, widths))
    ensures a == b
    decreases |a|
  {
    if a != [] {
      assert NumberParts(a, widths)[1..] == NumberParts(a[1..], widths[1..]);
      assert NumberParts(b, widths)[1..] == NumberParts(b[1..], widths[1..]);
      var w := widths[0];
      var x, y := Concat(NumberParts(a, widths)), Concat(NumberParts(b, widths));
      assert LeBytes(a[0], w) == x[..w] && LeBytes(b[0], w) == y[..w];
      assert Concat(NumberParts(a[1..], widths[1..])) == x[w..];
      assert Concat(NumberParts(b[1..], widths[1..])) == y[w..];
      LeValueOfBytes(a[0], w);
      LeValueOfBytes(b[0], w);
      SameNumbers(a[1..], b[1..], widths[1..]);
      assert a == [a[0]] + a[1..] && b == [b[0]] + b[1..];
    }
  }

  /** Numbers that fit are told apart by their encodings. */
  lemma {:induction false} NumbersAreCanonical(a: seq<nat>, b: seq<nat>, widths: seq<nat>, s: Bytes, t: Bytes)
    requires Fits(a, widths) && Fits(b, widths)
    requires Concat(NumberParts(a, widths)) + s == Concat(NumberParts(b, widths)) + t
    ensures a == b && s == t
  {
    NumbersLength(a, widths);
    NumbersLength(b, widths);
    var x, y := Concat(NumberParts(a, widths)), Concat(NumberParts(b, widths));
    assert x == (x + s)[..|x|] && y == (y + t)[..|x|] && s == (x + s)[|x|..] && t == (y + t)[|x|..];
    SameNumbers(a, b, widths);
  }
}
