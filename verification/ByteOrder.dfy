/** Endian conversion in place (`cpp/src/byte_order.hpp`), the byte swap of wire integers
    (`cpp/src/wire_int.hpp`) and packing of bytes into words (`cpp/src/macos/io_util_macos.hpp`). */
module ByteOrders {
  import opened Arithmetic
  import opened Bytes
  import opened Sequences
  import opened Wrappers

  datatype Endian = Little | Big

  datatype Invariance = DataInvariance | AddressInvariance

  datatype ByteOrder = ByteOrder(endian: Endian, invariance: Invariance, addressSize: int)
  {
    predicate OnlyEndianDiffers(other: ByteOrder) {
      endian != other.endian && invariance == other.invariance && addressSize == other.addressSize
    }
  }

  /** Every full block of k bytes reversed, the bytes after the last full block as they are. */
  function Converted(b: seq<byte>, k: nat): (r: seq<byte>)
    requires k > 0
    ensures |r| == |b|
    decreases |b|
  {
    if |b| < k then b else Reversed(b[..k]) + Converted(b[k..], k)
  }

  /** The guard of `convert`. */
  predicate Converts(size: nat, k: nat, from: ByteOrder, to: ByteOrder) {
    from != to && size > 1 && from.OnlyEndianDiffers(to) && k > 1
  }

  /** Reverses each block of `originalDataSize` bytes. With fewer bytes than one block the source
      computes a wrapped-around bound and swaps bytes outside the data, which is reported. */
  method Convert(data: array<byte>, originalDataSize: nat, from: ByteOrder, to: ByteOrder) returns (outOfBounds: bool)
    modifies data
    ensures outOfBounds <==> Converts(data.Length, originalDataSize, from, to) && data.Length < originalDataSize
    ensures !outOfBounds && Converts(data.Length, originalDataSize, from, to) ==>
      data[..] == Converted(old(data[..]), originalDataSize)
    ensures !Converts(data.Length, originalDataSize, from, to) ==> data[..] == old(data[..])
    ensures Converts(data.Length, originalDataSize, from, to) <==>
      && from.endian != to.endian && from.invariance == to.invariance && from.addressSize == to.addressSize
      && data.Length > 1 && originalDataSize > 1
  {
    if from != to && data.Length > 1 && from.OnlyEndianDiffers(to) && originalDataSize > 1 {
      var k := originalDataSize;
      if k > data.Length {
        return true;
      }
      ConvertBlocks(data, k);
    }
    return false;
  }

  /** The outer loop. */
  method ConvertBlocks(data: array<byte>, k: nat)
    requires 0 < k <= data.Length
    modifies data
    ensures data[..] == Converted(old(data[..]), k)
  {
    ghost var before, done, todo := data[..], [], data[..];
    var e := data.Length - k;
    var i := 0;
    while i <= e
      invariant i == |done| <= data.Length && data[..] == done + todo
      invariant Converted(before, k) == done + Converted(todo, k)
    {
      assert Converted(todo, k) == Reversed(todo[..k]) + Converted(todo[k..], k);
      MiddleOfConcat(done, todo, k);
      ReverseBlock(data, i, k);
      ConcatAssociates(done, Reversed(todo[..k]), Converted(todo[k..], k));
      done, todo := done + Reversed(todo[..k]), todo[k..];
      i := i + k;
    }
    assert Converted(todo, k) == todo;
  }

  /** The inner loop: swaps bytes from both ends of one block. */
  method ReverseBlock(data: array<byte>, i: nat, k: nat)
    requires i + k <= data.Length
    modifies data
    ensures data[..] == WithBlockReversed(old(data[..]), i, k)
  {
    ghost var before := data[..];
    var x := k / 2;
    assert x + x <= k <= x + x + 1;
    for j := 0 to x
      invariant forall m :: 0 <= m < data.Length ==> data[m] == before[AfterSwaps(m, i, k, j)]
    {
      data[i + j], data[i - j + k - 1] := data[i - j + k - 1], data[i + j];
    }
    forall m | 0 <= m < data.Length ensures data[m] == WithBlockReversed(before, i, k)[m] {
      BlockElement(before, i, k, x, m);
    }
    assert data[..] == WithBlockReversed(before, i, k);
  }

  function WithBlockReversed(b: seq<byte>, i: nat, k: nat): (r: seq<byte>)
    requires i + k <= |b|
    ensures |r| == |b|
  {
    b[..i] + Reversed(b[i..i + k]) + b[i + k..]
  }

  lemma BlockElement(b: seq<byte>, i: nat, k: nat, x: nat, m: nat)
    requires i + k <= |b| && m < |b| && x + x <= k <= x + x + 1
    ensures 0 <= AfterSwaps(m, i, k, x) < |b|
    ensures WithBlockReversed(b, i, k)[m] == b[AfterSwaps(m, i, k, x)]
  {
    if i <= m < i + k {
      assert Reversed(b[i..i + k])[m - i] == b[i..i + k][k - 1 - (m - i)];
    }
  }

  /** Where the byte at index m comes from when j pairs of the block are swapped. */
  function AfterSwaps(m: int, i: nat, k: nat, j: nat): int {
    if i <= m < i + j || i + k - j <= m < i + k then i + k - 1 - (m - i) else m
  }

  lemma MiddleOfConcat(done: seq<byte>, todo: seq<byte>, k: nat)
    requires k <= |todo|
    ensures var s := done + todo; var i := |done|;
      s[..i] == done && s[i..i + k] == todo[..k] && s[i + k..] == todo[k..]
  {
  }

  // ---------- What the conversion means ----------

  lemma {:induction false} ConvertedTwice(b: seq<byte>, k: nat)
    requires k > 0
    ensures Converted(Converted(b, k), k) == b
    decreases |b|
  {
    if |b| >= k {
      var head, tail := Reversed(b[..k]), Converted(b[k..], k);
      SplitConcat(head, tail);
      ReversedTwice(b[..k]);
      ConvertedTwice(b[k..], k);
      assert b == b[..k] + b[k..];
    }
  }

  lemma PreviousBlock(n: nat, k: nat, at: nat)
    requires n > 0 && at == n * k
    ensures at >= k && at - k == (n - 1) * k
  {
    assert n * k == (n - 1) * k + k;
  }

  lemma SliceOfDrop(b: seq<byte>, k: nat, at: nat)
    requires k <= at && at + k <= |b|
    ensures b[at..at + k] == b[k..][at - k..at]
  {
  }

  /** Block number n, which starts at byte n * k, is reversed in place. */
  lemma {:induction false} ConvertedBlock(b: seq<byte>, k: nat, n: nat, at: nat)
    requires k > 0 && at == n * k && at + k <= |b|
    ensures Converted(b, k)[at..at + k] == Reversed(b[at..at + k])
    decreases n
  {
    SplitConcat(Reversed(b[..k]), Converted(b[k..], k));
    if n > 0 {
      PreviousBlock(n, k, at);
      ConvertedBlock(b[k..], k, n - 1, at - k);
      SliceOfDrop(Converted(b, k), k, at);
      SliceOfDrop(b, k, at);
    } else {
      FirstSlice(Converted(b, k), k, at);
      FirstSlice(b, k, at);
    }
  }

  lemma FirstSlice(b: seq<byte>, k: nat, at: nat)
    requires at == 0 && k <= |b|
    ensures b[at..at + k] == b[..k]
  {
  }

  /** The number of bytes in full blocks. */
  function FullBlocks(n: nat, k: nat): (full: nat)
    requires k > 0
    ensures full <= n
  {
    n - n % k
  }

  /** What follows the last full block is untouched. */
  lemma {:induction false} ConvertedTail(b: seq<byte>, k: nat)
    requires k > 0
    ensures var full := FullBlocks(|b|, k); Converted(b, k)[full..] == b[full..]
    decreases |b|
  {
    if |b| >= k {
      ConvertedTail(b[k..], k);
      SubtractBlock(|b|, k);
      SplitConcat(Reversed(b[..k]), Converted(b[k..], k));
      DropTwice(Converted(b, k), k, FullBlocks(|b|, k));
      DropTwice(b, k, FullBlocks(|b|, k));
    } else {
      assert |b| % k == |b|;
    }
  }

  lemma DropTwice(b: seq<byte>, k: nat, full: nat)
    requires k <= full <= |b|
    ensures b[full..] == b[k..][full - k..]
  {
  }

  lemma SubtractBlock(n: nat, k: nat)
    requires 0 < k <= n
    ensures (n - k) % k == n % k && n - n % k >= k
    ensures FullBlocks(n - k, k) == FullBlocks(n, k) - k
  {
    var q := n / k;
    assert n == q * k + n % k;
    assert n - k == (q - 1) * k + n % k;
    MulMonotone(1, q, k);
    DivModUnique(n - k, k, q - 1, n % k);
  }

  /** The number whose big-endian bytes are `b`. */
  function BigValue(b: seq<byte>): nat {
    if b == [] then 0 else 256 * BigValue(b[..|b| - 1]) + b[|b| - 1] as nat
  }

  /** Reversing a word's little-endian bytes gives its big-endian bytes. */
  lemma {:induction false} ReversedValue(b: seq<byte>)
    ensures BigValue(Reversed(b)) == Value(b)
  {
    if b != [] {
      ReversedValue(b[1..]);
      assert Reversed(b)[..|b| - 1] == Reversed(b[1..]);
    }
  }

  /** Every full block keeps its value: little-endian before, big-endian after. */
  lemma ConvertedValues(b: seq<byte>, k: nat, n: nat, at: nat)
    requires k > 0 && at == n * k && at + k <= |b|
    ensures BigValue(Converted(b, k)[at..at + k]) == Value(b[at..at + k])
  {
    ConvertedBlock(b, k, n, at);
    ReversedValue(b[at..at + k]);
  }

  // ---------- Wire integers ----------

  /** std::byteswap on a word of w bytes. */
  function ByteSwap(v: nat, w: nat): nat {
    Value(Reversed(Digits(v, w)))
  }

  /** `encode` and `decode` of an integer stored big-endian on a little-endian machine. */
  function Encode(v: nat, w: nat, needSwap: bool): nat {
    if needSwap then ByteSwap(v, w) else v
  }

  lemma DecodeEncode(v: nat, w: nat, needSwap: bool)
    requires v < Power(w)
    ensures Encode(v, w, needSwap) < Power(w)
    ensures Encode(Encode(v, w, needSwap), w, needSwap) == v
    ensures if needSwap then BigValue(Digits(Encode(v, w, needSwap), w)) == v else Encode(v, w, needSwap) == v
  {
    var b := Digits(v, w);
    ReversedValue(b);
    ValueBound(Reversed(b));
    DigitsOfValue(Reversed(b));
    ReversedTwice(b);
    SmallValue(v, w);
  }

  /** The stored bytes of a swapped integer are what `convert` makes of its plain bytes. */
  lemma EncodeAgreesWithConvert(v: nat, w: nat)
    requires w > 0
    ensures Digits(Encode(v, w, true), w) == Converted(Digits(v, w), w)
  {
    var b := Digits(v, w);
    DigitsOfValue(Reversed(b));
    assert b[..w] == b && b[w..] == [];
    assert Reversed(b) + [] == Reversed(b);
  }

  // ---------- Packing ----------

  predicate WholeWords(b: seq<byte>, w: nat)
    requires w > 0
  {
    |b| % w == 0
  }

  /** Words of w bytes each, read little-endian. */
  function Packed(b: seq<byte>, w: nat): (r: seq<nat>)
    requires w > 0 && WholeWords(b, w)
    ensures forall k :: 0 <= k < |r| ==> r[k] < Power(w)
    decreases |b|
  {
    if b == [] then []
    else
      SubtractBlock(|b|, w);
      ValueBound(b[..w]);
      [Value(b[..w])] + Packed(b[w..], w)
  }

  function Unpacked(words: seq<nat>, w: nat): (b: seq<byte>)
    requires w > 0
    ensures |b| % w == 0
  {
    if words == [] then []
    else
      var tail := Unpacked(words[1..], w);
      AddBlock(|tail|, w);
      Digits(words[0], w) + tail
  }

  lemma {:induction false} UnpackPacked(b: seq<byte>, w: nat)
    requires w > 0 && |b| % w == 0
    ensures Unpacked(Packed(b, w), w) == b
    decreases |b|
  {
    if b != [] {
      SubtractBlock(|b|, w);
      DigitsOfValue(b[..w]);
      UnpackPacked(b[w..], w);
      assert Packed(b, w)[1..] == Packed(b[w..], w);
      assert b == b[..w] + b[w..];
    }
  }

  /** Word number n is the value of the w bytes that stand at n * w. */
  lemma {:induction false} PackedWord(b: seq<byte>, w: nat, n: nat, at: nat)
    requires w > 0 && |b| % w == 0 && at == n * w && at + w <= |b|
    ensures n < |Packed(b, w)| && Packed(b, w)[n] == Value(b[at..at + w])
    decreases n
  {
    SubtractBlock(|b|, w);
    if n > 0 {
      PreviousBlock(n, w, at);
      PackedWord(b[w..], w, n - 1, at - w);
      SliceOfDrop(b, w, at);
    } else {
      FirstSlice(b, w, at);
    }
  }

  /** There are as many words as whole words of bytes. */
  lemma {:induction false} PackedLength(b: seq<byte>, w: nat)
    requires w > 0 && |b| % w == 0
    ensures |Packed(b, w)| * w == |b|
    decreases |b|
  {
    if b != [] {
      SubtractBlock(|b|, w);
      PackedLength(b[w..], w);
      NextBlock(|Packed(b[w..], w)|, w, |b[w..]|);
    }
  }

  lemma NextBlock(n: nat, k: nat, at: nat)
    requires at == n * k
    ensures (n + 1) * k == at + k
  {
  }

  lemma AddBlock(n: nat, k: nat)
    requires k > 0 && n % k == 0
    ensures (k + n) % k == 0
  {
    var q := n / k;
    assert n == q * k;
    assert k + n == (q + 1) * k;
    DivModUnique(k + n, k, q + 1, 0);
  }

  lemma {:induction false} PackUnpacked(words: seq<nat>, w: nat)
    requires w > 0 && forall k :: 0 <= k < |words| ==> words[k] < Power(w)
    ensures Packed(Unpacked(words, w), w) == words
  {
    if words != [] {
      SmallValue(words[0], w);
      PackUnpacked(words[1..], w);
      PackStep(Digits(words[0], w), Unpacked(words[1..], w), w);
      assert words == [words[0]] + words[1..];
    }
  }

  lemma PackStep(head: seq<byte>, tail: seq<byte>, w: nat)
    requires w > 0 && |head| == w && |tail| % w == 0
    ensures |head + tail| % w == 0
    ensures Packed(head + tail, w) == [Value(head)] + Packed(tail, w)
  {
    AddBlock(|tail|, w);
    SplitConcat(head, tail);
  }

  /** What `string_to_binary` reads: the text, and the terminating zero when one byte is missing from
      the last word; nothing when more are missing, which reads outside the text. */
  function Readable(input: seq<byte>, w: nat): Option<seq<byte>>
    requires w > 0
  {
    if |input| % w == 0 then Some(input)
    else if (|input| + 1) % w == 0 then Some(input + [0])
    else None
  }

  method StringToBinary(input: seq<byte>, w: nat) returns (out: Option<seq<nat>>)
    requires w > 0
    ensures out.Some? <==> Readable(input, w).Some?
    ensures out.Some? ==> |Readable(input, w).value| % w == 0 && out.value == Packed(Readable(input, w).value, w)
    ensures out.Some? <==> |input| % w == 0 || (|input| + 1) % w == 0
    ensures out.Some? ==> Unpacked(out.value, w) == if |input| % w == 0 then input else input + [0]
  {
    var b := Readable(input, w);
    if b.None? {
      return None;
    }
    var words := PackWords(b.value, w);
    UnpackPacked(b.value, w);
    return Some(words);
  }

  method PackWords(input: seq<byte>, w: nat) returns (out: seq<nat>)
    requires w > 0 && WholeWords(input, w)
    ensures out == Packed(input, w)
  {
    out := [];
    var i := 0;
    assert input[0..] == input;
    while i < |input|
      invariant i <= |input| && WholeWords(input[i..], w)
      invariant Packed(input, w) == out + Packed(input[i..], w)
    {
      PackOneMore(out, input, i, w);
      var word := WordAt(input, i, w);
      out := out + [word];
      i := i + w;
    }
  }

  lemma PackOneMore(out: seq<nat>, input: seq<byte>, i: nat, w: nat)
    requires w > 0 && i < |input| && WholeWords(input[i..], w)
    ensures i + w <= |input| && WholeWords(input[i + w..], w)
    ensures out + Packed(input[i..], w) == out + [Value(input[i..i + w])] + Packed(input[i + w..], w)
  {
    WholeWord(|input| - i, w);
    SubtractBlock(|input| - i, w);
    SliceAgain(input, i, w);
    ConcatAssociates(out, [Value(input[i..i + w])], Packed(input[i + w..], w));
  }

  lemma SliceAgain(b: seq<byte>, i: nat, w: nat)
    requires i + w <= |b|
    ensures b[i..][..w] == b[i..i + w] && b[i..][w..] == b[i + w..]
  {
  }

  /** The inner loop: one word, its low byte first. */
  method WordAt(input: seq<byte>, i: nat, w: nat) returns (word: nat)
    requires i + w <= |input|
    ensures word == Value(input[i..i + w])
  {
    word := 0;
    for j := 0 to w
      invariant word == Value(input[i..i + j])
    {
      assert input[i..i + j + 1] == input[i..i + j] + [input[i + j]];
      ValueAppend(input[i..i + j], input[i + j]);
      word := word + input[i + j] as nat * Power(j);
    }
  }

  lemma WholeWord(n: nat, w: nat)
    requires w > 0 && n > 0 && n % w == 0
    ensures n >= w
  {
  }

  /** `binary_to_string`: the bytes of each word, the low byte first. */
  method BinaryToString(data: seq<nat>, w: nat) returns (out: seq<byte>)
    requires w > 0
    ensures out == Unpacked(data, w)
  {
    out := [];
    ghost var todo := data;
    for k := 0 to |data|
      invariant todo == data[k..] && Unpacked(data, w) == out + Unpacked(todo, w)
    {
      ghost var before := out;
      for i := 0 to w
        invariant out == before + Digits(data[k], i)
      {
        DigitsAppend(data[k], i);
        out := out + [(data[k] / Power(i) % 256) as byte];
      }
      ConcatAssociates(before, Digits(data[k], w), Unpacked(data[k + 1..], w));
      assert todo[1..] == data[k + 1..];
      todo := data[k + 1..];
    }
  }
}
