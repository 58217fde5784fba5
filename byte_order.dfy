/**
  * Little-endian packing of 32-bit words, as the banner tool uses it: the
  * `MAGIC` macro of debanner.c, the decoding of a byte buffer into the
  * `unsigned int` words of the CBMD header, and the inverse encodings.
  *
  * The C code reinterprets byte buffers as `unsigned int` in host order; this
  * model fixes that order to little-endian, the order of the file format.
  */
module ByteOrder {

  /** One byte of a file. */
  newtype Byte = x: int | 0 <= x < 0x100

  /** A 32-bit unsigned word, the C `unsigned int` of the source. */
  newtype Word = x: int | 0 <= x < 0x1_0000_0000

  /**
    * The `MAGIC(c1, c2, c3, c4)` macro: c1 in bits 0-7, c2 in bits 8-15, c3 in
    * bits 16-23, c4 in bits 24-31. The macro ORs the shifted bytes together;
    * their bits do not overlap, so the OR is the sum written here.
    */
  function Magic(c1: Byte, c2: Byte, c3: Byte, c4: Byte): (w: Word)
    ensures w % 0x100 == c1 as Word
    ensures w / 0x100_0000 == c4 as Word
  {
    (c1 as int + c2 as int * 0x100 + c3 as int * 0x1_0000 + c4 as int * 0x100_0000) as Word
  }

  /** The word stored little-endian in the four bytes `b`, as an `unsigned int` read on a little-endian host. */
  function LE32(b: seq<Byte>): (w: Word)
    requires |b| == 4
  {
    Magic(b[0], b[1], b[2], b[3])
  }

  /** The four bytes that store `w` little-endian, least significant first. */
  function WordBytes(w: Word): (b: seq<Byte>)
    ensures |b| == 4
  {
    var w1 := w as int / 0x100;
    var w2 := w1 / 0x100;
    [(w as int % 0x100) as Byte, (w1 % 0x100) as Byte, (w2 % 0x100) as Byte, (w2 / 0x100) as Byte]
  }

  /** `MAGIC` packs its first argument into the least significant byte: the word's bytes, lowest first, are c1, c2, c3, c4. */
  lemma MagicIsLittleEndian(c1: Byte, c2: Byte, c3: Byte, c4: Byte)
    ensures WordBytes(Magic(c1, c2, c3, c4)) == [c1, c2, c3, c4]
    ensures Magic(c1, c2, c3, c4) % 0x100 == c1 as Word
  {
    WordBytesOfLE32([c1, c2, c3, c4]);
  }

  /** Encoding a decoded word gives back the four bytes. */
  lemma WordBytesOfLE32(b: seq<Byte>)
    requires |b| == 4
    ensures WordBytes(LE32(b)) == b
  {
    var b0, b1, b2, b3 := b[0] as int, b[1] as int, b[2] as int, b[3] as int;
    var hi2 := b2 + 0x100 * b3;
    var hi1 := b1 + 0x100 * hi2;
    var w := LE32(b);
    assert w as int == b0 + 0x100 * hi1;
    SplitLowByte(b0, hi1);
    SplitLowByte(b1, hi2);
    SplitLowByte(b2, b3);
    var r := WordBytes(w);
    assert r[0] == b[0] && r[1] == b[1] && r[2] == b[2] && r[3] == b[3];
  }

  /** Splitting `lo + 0x100 * hi` into its low byte and the rest. */
  lemma SplitLowByte(lo: int, hi: int)
    requires 0 <= lo < 0x100 && 0 <= hi
    ensures (lo + 0x100 * hi) % 0x100 == lo
    ensures (lo + 0x100 * hi) / 0x100 == hi
  {
  }

  /** Decoding an encoded word gives back the word. */
  lemma LE32OfWordBytes(w: Word)
    ensures LE32(WordBytes(w)) == w
  {
    var w1 := w as int / 0x100;
    var w2 := w1 / 0x100;
    assert w as int == w as int % 0x100 + 0x100 * w1;
    assert w1 == w1 % 0x100 + 0x100 * w2;
    assert w2 == w2 % 0x100 + 0x100 * (w2 / 0x100);
  }

  /** Two words stored in the same four bytes are equal: a word's four bytes determine it. */
  lemma LE32Injective(a: seq<Byte>, b: seq<Byte>)
    requires |a| == 4 && |b| == 4
    ensures LE32(a) == LE32(b) <==> a == b
  {
    if LE32(a) == LE32(b) {
      WordBytesOfLE32(a);
      WordBytesOfLE32(b);
    }
  }

  /** The words stored little-endian, one after another, in `s`, as `fread` into an `unsigned int` array leaves them. */
  function DecodeWords(s: seq<Byte>): (ws: seq<Word>)
    requires |s| % 4 == 0
    ensures |ws| == |s| / 4
  {
    if s == [] then [] else [LE32(s[..4])] + DecodeWords(s[4..])
  }

  /** The bytes of the words `ws`, each stored little-endian, as `fwrite` of an `unsigned int` array writes them. */
  function EncodeWords(ws: seq<Word>): (s: seq<Byte>)
    ensures |s| == 4 * |ws|
  {
    if ws == [] then [] else WordBytes(ws[0]) + EncodeWords(ws[1..])
  }

  /** Word `i` of a decoded buffer is the word stored at byte offset `4 * i`. */
  lemma {:induction false} DecodeWordsAt(s: seq<Byte>, i: nat)
    requires |s| % 4 == 0 && i < |s| / 4
    ensures DecodeWords(s)[i] == LE32(s[4 * i .. 4 * i + 4])
  {
    if i > 0 {
      var j := i - 1;
      DecodeWordsAt(s[4..], j);
      assert 4 * i == 4 * j + 4;
      assert s[4..][4 * j .. 4 * j + 4] == s[4 * i .. 4 * i + 4];
    }
  }

  /** Writing decoded words back reproduces the buffer byte for byte. */
  lemma {:induction false} EncodeDecode(s: seq<Byte>)
    requires |s| % 4 == 0
    ensures EncodeWords(DecodeWords(s)) == s
  {
    if s != [] {
      var ws := DecodeWords(s);
      assert ws[1..] == DecodeWords(s[4..]);
      EncodeDecode(s[4..]);
      WordBytesOfLE32(s[..4]);
      assert s == s[..4] + s[4..];
    }
  }

  /** Reading encoded words back gives the same words. */
  lemma {:induction false} DecodeEncode(ws: seq<Word>)
    ensures DecodeWords(EncodeWords(ws)) == ws
  {
    if ws != [] {
      var s := EncodeWords(ws);
      assert s[..4] == WordBytes(ws[0]);
      assert s[4..] == EncodeWords(ws[1..]);
      LE32OfWordBytes(ws[0]);
      DecodeEncode(ws[1..]);
    }
  }
}
