/** The result of reading a value back from bytes that may not hold one. */
module Optional {

  datatype Option<+T> = None | Some(value: T)
}

/**
 Fixed-stride serialisation of tables.

 The source turns a `Vec` of plain records into bytes with
 `iter().flat_map(bytemuck::bytes_of).collect()`: the records' byte images,
 in table order, back to back. `Concat` is that operation for any record
 encoder; `Split` is its inverse, used to state what a byte string means.
 */
module Layout {
  import opened Bytes
  import opened Optional

  /** The in-order concatenation of the records' byte images. */
  function Concat<T>(xs: seq<T>, enc: T -> seq<uint8>): seq<uint8>
    decreases |xs|
  {
    if xs == [] then [] else enc(xs[0]) + Concat(xs[1..], enc)
  }

  /** Every record has a byte image of the same width (its `size_of`). */
  ghost predicate FixedWidth<T(!new)>(enc: T -> seq<uint8>, width: nat) {
    forall x :: |enc(x)| == width
  }

  /** `dec` reads back every record that `enc` writes. */
  ghost predicate Inverts<T(!new)>(dec: seq<uint8> -> Option<T>, enc: T -> seq<uint8>) {
    forall x :: dec(enc(x)) == Some(x)
  }

  /**
   Cuts `b` into consecutive chunks of `width` bytes and decodes each one;
   fails when the length is not a multiple of `width` or a chunk does not decode.
   */
  function Split<T>(b: seq<uint8>, width: nat, dec: seq<uint8> -> Option<T>): (r: Option<seq<T>>)
    requires width > 0
    ensures r.Some? ==> |r.value| * width == |b|
    decreases |b|
  {
    if b == [] then Some([])
    else if |b| < width then None
    else match dec(b[..width])
      case None => None
      case Some(x) =>
        match Split(b[width..], width, dec)
        case None => None
        case Some(rest) =>
          Some([x] + rest)
  }

  lemma {:induction false} ConcatLength<T(!new)>(xs: seq<T>, enc: T -> seq<uint8>, width: nat)
    requires FixedWidth(enc, width)
    ensures |Concat(xs, enc)| == width * |xs|
    decreases |xs|
  {
    if xs != [] {
      ConcatLength(xs[1..], enc, width);
    }
  }

  lemma {:induction false} ConcatAppend<T>(xs: seq<T>, ys: seq<T>, enc: T -> seq<uint8>)
    ensures Concat(xs + ys, enc) == Concat(xs, enc) + Concat(ys, enc)
    decreases |xs|
  {
    if xs == [] {
      assert xs + ys == ys;
    } else {
      assert (xs + ys)[1..] == xs[1..] + ys;
      ConcatAppend(xs[1..], ys, enc);
    }
  }

  /** Appending a record extends the byte image: the old bytes are a prefix. */
  lemma ConcatSnoc<T>(xs: seq<T>, x: T, enc: T -> seq<uint8>)
    ensures Concat(xs + [x], enc) == Concat(xs, enc) + enc(x)
  {
    ConcatAppend(xs, [x], enc);
    assert Concat([x], enc) == enc(x) + Concat([], enc);
  }

  /** Record `i` occupies bytes `[width * i, width * (i + 1))` of the image. */
  lemma {:induction false} ConcatRecord<T(!new)>(xs: seq<T>, enc: T -> seq<uint8>, width: nat, i: nat)
    requires FixedWidth(enc, width)
    requires i < |xs|
    ensures width * (i + 1) <= |Concat(xs, enc)|
    ensures Concat(xs, enc)[width * i..width * (i + 1)] == enc(xs[i])
    decreases i
  {
    ConcatLength(xs, enc, width);
    if i > 0 {
      ConcatRecord(xs[1..], enc, width, i - 1);
      var tail := Concat(xs[1..], enc);
      assert Concat(xs, enc) == enc(xs[0]) + tail;
      assert width * i == width + width * (i - 1);
      assert Concat(xs, enc)[width * i..width * (i + 1)] == tail[width * (i - 1)..width * i];
    }
  }

  /** Decoding the image of a table gives the table back. */
  lemma {:induction false} SplitConcat<T(!new)>(xs: seq<T>, enc: T -> seq<uint8>, width: nat, dec: seq<uint8> -> Option<T>)
    requires width > 0
    requires FixedWidth(enc, width)
    requires Inverts(dec, enc)
    ensures Split(Concat(xs, enc), width, dec) == Some(xs)
    decreases |xs|
  {
    if xs != [] {
      var b := Concat(xs, enc);
      var head := enc(xs[0]);
      assert b == head + Concat(xs[1..], enc);
      assert |head| == width;
      assert b[..width] == head;
      assert b[width..] == Concat(xs[1..], enc);
      assert dec(head) == Some(xs[0]);
      SplitConcat(xs[1..], enc, width, dec);
      assert [xs[0]] + xs[1..] == xs;
    }
  }

  /** Decoding a single 4-byte field. */
  function DecodeWord(b: seq<uint8>): (r: Option<uint32>)
    ensures r.Some? <==> |b| == WORD_SIZE
    ensures r.Some? ==> U32ToBytes(r.value) == b
  {
    if |b| == WORD_SIZE then U32BytesRoundTrip(b); Some(U32FromBytes(b)) else None
  }

  /** The byte image of a record whose fields are the words `ws`, in order. */
  function WordsToBytes(ws: seq<uint32>): seq<uint8> {
    Concat(ws, U32ToBytes)
  }

  function BytesToWords(b: seq<uint8>): Option<seq<uint32>> {
    Split(b, WORD_SIZE, DecodeWord)
  }

  /** Field `i` of a record occupies bytes `[4 i, 4 (i + 1))` of its image. */
  lemma WordsToBytesField(ws: seq<uint32>, i: nat)
    requires i < |ws|
    ensures WORD_SIZE * (i + 1) <= |WordsToBytes(ws)|
    ensures WordsToBytes(ws)[WORD_SIZE * i..WORD_SIZE * (i + 1)] == U32ToBytes(ws[i])
  {
    assert FixedWidth(U32ToBytes, WORD_SIZE);
    ConcatRecord(ws, U32ToBytes, WORD_SIZE, i);
  }

  lemma WordsRoundTrip(ws: seq<uint32>)
    ensures |WordsToBytes(ws)| == WORD_SIZE * |ws|
    ensures BytesToWords(WordsToBytes(ws)) == Some(ws)
  {
    assert FixedWidth(U32ToBytes, WORD_SIZE);
    forall x: uint32 ensures DecodeWord(U32ToBytes(x)) == Some(x) {
      U32RoundTrip(x);
    }
    assert Inverts(DecodeWord, U32ToBytes);
    ConcatLength(ws, U32ToBytes, WORD_SIZE);
    SplitConcat(ws, U32ToBytes, WORD_SIZE, DecodeWord);
  }
}
