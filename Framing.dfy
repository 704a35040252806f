/**
 * Framing of the chat protocol: every message is a three-letter opcode, its
 * content, and a terminating '\0'. The server reads a frame into a growable
 * byte buffer; this module holds the value-level definitions the reader and
 * the dispatcher are specified with.
 */
module Framing {
  /** The frame terminator. */
  const NUL: char := 0 as char
  /** The separator between two fields of a content (name and password, sender and text). */
  const SEP: char := 3 as char

  /** Java's `(byte)` narrowing: the low eight bits, read as a two's complement value. */
  function JavaByte(c: int): (b: int)
    ensures -128 <= b < 128
    ensures (c - b) % 256 == 0
  {
    (c + 128) % 256 - 128
  }

  /** One stored byte read back as a character, one byte per character. */
  function ByteChar(b: int): char {
    (b % 256) as char
  }

  /** A stored byte gives back the character it was cut from when that character fits in a byte. */
  lemma ByteCharOfJavaByte(c: char)
    requires c as int < 256
    ensures ByteChar(JavaByte(c as int)) == c
  {
  }

  /** The character codes a peer's reader delivers for `s`. */
  function Codes(s: string): (r: seq<int>)
    ensures |r| == |s|
    ensures forall k :: 0 <= k < |s| ==> r[k] == s[k] as int
  {
    seq(|s|, k requires 0 <= k < |s| => s[k] as int)
  }

  /** A frame as a sender writes it: opcode, content, terminator. */
  function Encode(opcode: string, content: string): string {
    opcode + content + [NUL]
  }

  /** An encoded frame gives back its opcode, its content and the terminator at the end. */
  lemma EncodeParts(opcode: string, content: string)
    ensures var r := Encode(opcode, content);
      && |r| == |opcode| + |content| + 1 && r[|r| - 1] == NUL
      && r[..|opcode|] == opcode && r[|opcode|..|r| - 1] == content
  {
  }

  /**
   * How many values the read loop `while ((character = in.read()) > 0)` stores
   * before it stops: the index of the first value that is not positive, or
   * the whole input when the stream ends first.
   */
  function FrameEnd(input: seq<int>): (k: nat)
    ensures k <= |input|
    ensures forall i :: 0 <= i < k ==> input[i] > 0
    ensures k < |input| ==> input[k] <= 0
  {
    if input == [] || input[0] <= 0 then 0 else 1 + FrameEnd(input[1..])
  }

  /** The bytes the read loop stores for the values it read. */
  function Stored(values: seq<int>): (r: seq<int>)
    ensures |r| == |values|
    ensures forall k :: 0 <= k < |r| ==> r[k] == JavaByte(values[k])
  {
    seq(|values|, k requires 0 <= k < |values| => JavaByte(values[k]))
  }

  /** The read loop stops at `k` when the values before `k` are positive and the one at `k`, if any, is not. */
  lemma {:induction false} FrameEndAt(input: seq<int>, k: nat)
    requires k <= |input| && forall i :: 0 <= i < k ==> input[i] > 0
    requires k < |input| ==> input[k] <= 0
    ensures FrameEnd(input) == k
  {
    if k > 0 {
      FrameEndAt(input[1..], k - 1);
    }
  }

  /** Storing one more value appends its byte. */
  lemma StoredSnoc(values: seq<int>, v: int)
    ensures Stored(values + [v]) == Stored(values) + [JavaByte(v)]
  {
  }

  /**
   * The buffer size after `n` bytes have been stored into a buffer of `size`
   * bytes that doubles whenever it is full and another byte arrives: the
   * first size*2^j that holds all `n` bytes.
   */
  function Capacity(size: int, n: int): (c: int)
    requires size > 0
    ensures n <= c && size <= c
    ensures c == size || c < 2 * n
    decreases n - size
  {
    if n <= size then size else Capacity(2 * size, n)
  }

  /** One more byte doubles the buffer exactly when the buffer was full. */
  lemma {:induction false} CapacityStep(size: int, n: int)
    requires size > 0 && n >= 0
    ensures Capacity(size, n + 1) == if n == Capacity(size, n) then 2 * Capacity(size, n) else Capacity(size, n)
    decreases n - size
  {
    if n > size {
      CapacityStep(2 * size, n);
    }
  }

  /** A frame as the dispatcher sees it. */
  datatype Frame = ShortFrame | Frame(opcode: string, content: string)

  /** Bytes read back as characters. */
  function Decode(bytes: seq<int>): (s: string)
    ensures |s| == |bytes|
    ensures forall k :: 0 <= k < |s| ==> s[k] == ByteChar(bytes[k])
  {
    seq(|bytes|, k requires 0 <= k < |bytes| => ByteChar(bytes[k]))
  }

  /**
   * handleMessage's split of the buffer: `items` counts the stored bytes and
   * the terminator slot. Three or fewer is a bad command; otherwise the
   * opcode is bytes 0..3 and the content the bytes from 3 up to, but not
   * including, the last counted slot.
   */
  function SplitFrame(buf: seq<int>, items: int): (f: Frame)
    requires items <= |buf| + 1
    ensures f.ShortFrame? <==> items <= 3
    ensures f.Frame? ==> |f.opcode| == 3 && |f.content| == items - 4
    ensures f.Frame? ==> f.opcode + f.content == Decode(buf[..items - 1])
  {
    if items <= 3 then ShortFrame else Frame(Decode(buf[..3]), Decode(buf[3..items - 1]))
  }

  /** The read loop stops exactly at the terminator of an encoded frame whose text has no '\0'. */
  lemma {:induction false} EncodedFrameEnd(s: string)
    requires forall k :: 0 <= k < |s| ==> s[k] != NUL
    ensures FrameEnd(Codes(s + [NUL])) == |s|
  {
    if s != [] {
      assert Codes(s + [NUL])[1..] == Codes(s[1..] + [NUL]);
      EncodedFrameEnd(s[1..]);
    }
  }

  /**
   * Round trip: a frame written as opcode + content + '\0' by a peer whose
   * characters fit in a byte is read back, byte by byte, and split into the
   * same opcode and content. `buf` is any buffer that holds the stored bytes
   * at its start; the terminator slot itself is never read, so the same split
   * results whether or not the terminator fitted in the buffer.
   */
  lemma FrameRoundTrip(opcode: string, content: string, buf: seq<int>)
    requires |opcode| == 3
    requires forall k :: 0 <= k < |opcode + content| ==> 0 < (opcode + content)[k] as int < 256
    requires var input := Codes(Encode(opcode, content));
      FrameEnd(input) <= |buf| && buf[..FrameEnd(input)] == Stored(input[..FrameEnd(input)])
    ensures SplitFrame(buf, |opcode| + |content| + 1) == Frame(opcode, content)
  {
    var s := opcode + content;
    assert Encode(opcode, content) == s + [NUL];
    EncodedFrameEnd(s);
    var input := Codes(s + [NUL]);
    assert input[..|s|] == Codes(s);
    var bytes := buf[..|s|];
    forall k | 0 <= k < |s| ensures Decode(bytes)[k] == s[k] {
      ByteCharOfJavaByte(s[k]);
    }
    assert Decode(bytes) == s;
    assert Decode(buf[..3]) == Decode(bytes)[..3];
    assert Decode(buf[3..|s|]) == Decode(bytes)[3..];
  }

  /**
   * A frame cut off by the end of the stream, with no terminator: all its
   * bytes are stored and counted, and the split still drops the last one as
   * if it were the terminator, so the content loses its last character.
   */
  lemma TruncatedSplit(text: string, buf: seq<int>)
    requires 3 < |text| && forall k :: 0 <= k < |text| ==> 0 < text[k] as int < 256
    requires |text| <= |buf| && buf[..|text|] == Stored(Codes(text))
    ensures SplitFrame(buf, |text|) == Frame(text[..3], text[3..|text| - 1])
  {
    var bytes := buf[..|text|];
    forall k | 0 <= k < |text| ensures Decode(bytes)[k] == text[k] {
      ByteCharOfJavaByte(text[k]);
    }
    assert Decode(bytes) == text;
    assert Decode(buf[..3]) == Decode(bytes)[..3];
    assert Decode(buf[3..|text| - 1]) == Decode(bytes)[3..|text| - 1];
  }

}
