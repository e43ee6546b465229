/** The on-disk array format of util/util.go: a little-endian uint32 length
    word followed by that many little-endian uint32 words. The file itself is
    replaced by the byte sequence written to it or read from it. */
module Wire {

  const WORD_RANGE: int := 0x1_0000_0000

  type byte = x: int | 0 <= x < 256
  type u32 = x: int | 0 <= x < 0x1_0000_0000

  /** The errors binary.Read reports when the stream runs dry: EOF when no
      byte at all was left for a read, UnexpectedEOF when some were. */
  datatype ReadError = Eof | UnexpectedEof

  datatype ReadResult = Success(value: seq<u32>) | Failure(error: ReadError)

  /** The four little-endian bytes of a word. */
  function WordBytes(w: u32): (b: seq<byte>)
    ensures |b| == 4
  {
    [w % 256, (w / 256) % 256, (w / 65536) % 256, w / 16777216]
  }

  /** The little-endian word stored at bytes [i, i + 4). */
  function WordAt(b: seq<byte>, i: nat): u32
    requires i + 4 <= |b|
  {
    b[i] as int + 256 * b[i + 1] as int + 65536 * b[i + 2] as int + 16777216 * b[i + 3] as int
  }

  lemma WordBytesRoundTrip(w: u32)
    ensures WordAt(WordBytes(w), 0) == w
  {
    var b := WordBytes(w);
    var q1 := w / 256;
    var q2 := q1 / 256;
    assert w == b[0] + 256 * q1;
    assert q1 == b[1] + 256 * q2;
    assert w / 65536 == q2;
    assert q2 == b[2] as int + 256 * b[3] as int;
  }

  /** The bytes the element loop writes: each element in order, four bytes
      apiece. */
  function EncodeWords(arr: seq<u32>): (b: seq<byte>)
    ensures |b| == 4 * |arr|
  {
    if arr == [] then [] else EncodeWords(arr[..|arr| - 1]) + WordBytes(arr[|arr| - 1])
  }

  /** What WriteArray writes for `arr`: the length converted to uint32 (so
      truncated modulo 2^32), then the elements. */
  function Encode(arr: seq<u32>): seq<byte>
  {
    WordBytes(|arr| % WORD_RANGE) + EncodeWords(arr)
  }

  /** What ReadArray returns for a stream: the length word, then exactly that
      many words; any bytes after them stay unread. */
  function Decode(b: seq<byte>): ReadResult
  {
    if |b| == 0 then Failure(Eof)
    else if |b| < 4 then Failure(UnexpectedEof)
    else
      var n := WordAt(b, 0);
      if n == 0 then Success([])
      else if |b| == 4 then Failure(Eof)
      else if |b| < 4 + 4 * n then Failure(UnexpectedEof)
      else Success(seq(n, i requires 0 <= i < n => WordAt(b, 4 + 4 * i)))
  }

  lemma EncodeLength(arr: seq<u32>)
    ensures |Encode(arr)| == 4 * (|arr| + 1)
  {
  }

  lemma {:induction false} EncodeWordsAt(arr: seq<u32>, i: nat)
    requires i < |arr|
    ensures WordAt(EncodeWords(arr), 4 * i) == arr[i]
  {
    var init := arr[..|arr| - 1];
    assert EncodeWords(arr) == EncodeWords(init) + WordBytes(arr[|arr| - 1]);
    if i < |arr| - 1 {
      EncodeWordsAt(init, i);
      assert EncodeWords(arr)[4 * i .. 4 * i + 4] == EncodeWords(init)[4 * i .. 4 * i + 4];
    } else {
      WordBytesRoundTrip(arr[i]);
      assert EncodeWords(arr)[4 * i .. 4 * i + 4] == WordBytes(arr[i]);
    }
  }

  /** Round trip, with any trailing bytes: the words written for `arr` read
      back as `arr`, and whatever follows them is ignored. */
  lemma DecodeEncode(arr: seq<u32>, rest: seq<byte>)
    requires |arr| < WORD_RANGE
    ensures Decode(Encode(arr) + rest) == Success(arr)
  {
    var b := Encode(arr) + rest;
    var n := |arr|;
    LengthWordOfEncode(arr, rest);
    if n > 0 {
      var words := seq(n, i requires 0 <= i < n => WordAt(b, 4 + 4 * i));
      forall i | 0 <= i < n
        ensures words[i] == arr[i]
      {
        ElementWordOfEncode(arr, rest, i);
      }
      assert words == arr;
    }
  }

  lemma LengthWordOfEncode(arr: seq<u32>, rest: seq<byte>)
    requires |arr| < WORD_RANGE
    ensures WordAt(Encode(arr) + rest, 0) == |arr|
  {
    var w := WordBytes(|arr| % WORD_RANGE);
    assert Encode(arr) + rest == w + (EncodeWords(arr) + rest);
    WordAtPrefix(w, EncodeWords(arr) + rest);
    WordBytesRoundTrip(|arr| % WORD_RANGE);
  }

  lemma WordAtPrefix(x: seq<byte>, y: seq<byte>)
    requires |x| >= 4
    ensures WordAt(x + y, 0) == WordAt(x, 0)
  {
  }

  lemma ElementWordOfEncode(arr: seq<u32>, rest: seq<byte>, i: nat)
    requires i < |arr|
    ensures WordAt(Encode(arr) + rest, 4 + 4 * i) == arr[i]
  {
    var b := Encode(arr) + rest;
    EncodeWordsAt(arr, i);
    assert b[4 + 4 * i .. 8 + 4 * i] == EncodeWords(arr)[4 * i .. 4 * i + 4];
  }

  /** ReadArray fails exactly when the stream is shorter than its length word,
      or shorter than the number of words that word declares. */
  lemma DecodeFailsIffShort(b: seq<byte>)
    ensures Decode(b).Failure? <==> (|b| < 4 || |b| < 4 + 4 * WordAt(b, 0))
  {
  }

  /** WriteArray: the length word, then one element per loop turn. */
  method WriteArray(arr: seq<u32>) returns (out: seq<byte>)
    ensures out == Encode(arr)
  {
    out := WordBytes(|arr| % WORD_RANGE);
    var i := 0;
    while i < |arr|
      invariant 0 <= i <= |arr|
      invariant out == WordBytes(|arr| % WORD_RANGE) + EncodeWords(arr[..i])
    {
      assert arr[..i + 1][..i] == arr[..i];
      out := out + WordBytes(arr[i]);
      i := i + 1;
    }
    assert arr[..i] == arr;
  }

  /** ReadArray: reads the length word, allocates the array and reads that
      many words into it. */
  method ReadArray(stream: seq<byte>) returns (r: ReadResult)
    ensures r == Decode(stream)
  {
    if |stream| < 4 {
      return if |stream| == 0 then Failure(Eof) else Failure(UnexpectedEof);
    }
    var length: int := WordAt(stream, 0);
    var arr := new u32[length];
    if length > 0 && |stream| < 4 + 4 * length {
      return if |stream| == 4 then Failure(Eof) else Failure(UnexpectedEof);
    }
    var i := 0;
    while i < length
      invariant 0 <= i <= length
      invariant forall k :: 0 <= k < i ==> arr[k] == WordAt(stream, 4 + 4 * k)
    {
      arr[i] := WordAt(stream, 4 + 4 * i);
      i := i + 1;
    }
    r := Success(arr[..]);
  }
}
