/**
  * The banner splitter of debanner.c: a Nintendo 3DS banner is a CBMD
  * container (a 0x88-byte header of 34 little-endian words, word 0x21 giving
  * the CBMD length, header included) directly followed by a BCWAV sound file.
  * `main` checks the CBMD magic, checks the declared length against the file
  * length, writes the CBMD region to `<stem>.cbmd`, then checks the CWAV
  * magic of the remainder and writes it to `<stem>.bcwav`.
  *
  * The file is a byte sequence; what the run writes is returned as values.
  */
module Banner {

  import opened Wrappers
  import opened ByteOrder
  import FileType

  /** `CBMD_HEADER_SIZE`: the header is 0x88 bytes. */
  const HeaderSize: nat := 0x88

  /** `CBMD_HEADER_SIZE_WORDS`: the header is 0x22 words. */
  const HeaderWordCount: nat := 0x22

  /** The header word that holds the CBMD length. */
  const LengthWord: nat := 0x21

  /** `MAGIC('C','B','M','D')`. */
  const CbmdMagic: Word := Magic('C' as Byte, 'B' as Byte, 'M' as Byte, 'D' as Byte)

  /** `MAGIC('C','W','A','V')`. */
  const CwavMagic: Word := Magic('C' as Byte, 'W' as Byte, 'A' as Byte, 'V' as Byte)

  /** Why a run stops early; each ends the run with exit status 1. */
  datatype Error =
    | CorruptCbmd     // header word 0 is not the CBMD magic
    | LengthTooLong   // the declared CBMD length exceeds the file length
    | LengthTooShort  // the declared CBMD length is below the header size
    | CorruptCwav     // the data after the CBMD region does not start with the CWAV magic

  /** What a run produces: the `.cbmd` contents if written, the `.bcwav` contents if written, and the error that stopped it. */
  datatype Outcome = Outcome(cbmd: Option<seq<Byte>>, bcwav: Option<seq<Byte>>, failure: Option<Error>)

  /**
    * The bytes in the header buffer after the first `fread`: the first 0x88
    * bytes of the file, or, when the file is shorter, its bytes followed by
    * the rest of `stale`, the earlier contents of the buffer.
    */
  function ReadHeader(input: seq<Byte>, stale: seq<Byte>): (h: seq<Byte>)
    requires |stale| == HeaderSize
    ensures |h| == HeaderSize
    ensures |input| >= HeaderSize ==> h == input[..HeaderSize]
    ensures |input| < HeaderSize ==> h[..|input|] == input
  {
    if |input| >= HeaderSize then input[..HeaderSize] else input + stale[|input|..]
  }

  /** The header as the array of `unsigned int` the source reads it into. */
  function HeaderWords(h: seq<Byte>): (ws: seq<Word>)
    requires |h| == HeaderSize
    ensures |ws| == HeaderWordCount
    ensures ws[0] == LE32(h[..4])
    ensures ws[LengthWord] == LE32(h[0x84..0x88])
  {
    DecodeWordsAt(h, 0);
    DecodeWordsAt(h, LengthWord);
    DecodeWords(h)
  }

  /** The CBMD length a well-sized banner declares: the word at byte offset 0x84. */
  function DeclaredLength(input: seq<Byte>): (n: nat)
    requires |input| >= HeaderSize
    ensures n < 0x1_0000_0000
  {
    LE32(input[0x84..0x88]) as nat
  }

  /**
    * The check on the BCWAV region: its first word is the CWAV magic. A region
    * of fewer than four bytes fails the check.
    */
  predicate StartsWithCwav(rest: seq<Byte>): (b: bool)
    ensures b <==> |rest| >= 4 && rest[..4] == ['C' as Byte, 'W' as Byte, 'A' as Byte, 'V' as Byte]
  {
    if |rest| >= 4 then
      LE32Injective(rest[..4], ['C' as Byte, 'W' as Byte, 'A' as Byte, 'V' as Byte]);
      LE32(rest[..4]) == CwavMagic
    else
      false
  }

  /**
    * The extraction in `main`, its I/O removed: the checks in the source's
    * order (CBMD magic, length against file length, length against header
    * size), the `.cbmd` output, then the CWAV check and the `.bcwav` output.
    */
  function Extract(input: seq<Byte>, stale: seq<Byte>): (o: Outcome)
    requires |stale| == HeaderSize
    ensures o.bcwav.Some? ==> o.cbmd.Some?
    ensures o.failure.None? <==> o.bcwav.Some?
    ensures o.failure == Some(CorruptCwav) <==> o.cbmd.Some? && o.bcwav.None?
    ensures o.cbmd.Some? ==> HeaderSize <= |o.cbmd.value| <= |input| && o.cbmd.value == input[..|o.cbmd.value|]
    ensures o.cbmd.Some? ==> |o.cbmd.value| == DeclaredLength(input)
    ensures o.bcwav.Some? ==> o.cbmd.value + o.bcwav.value == input
  {
    var header := ReadHeader(input, stale);
    var words := HeaderWords(header);
    if words[0] != CbmdMagic then
      Outcome(None, None, Some(CorruptCbmd))
    else
      var cbmdlen := words[LengthWord] as nat;
      if cbmdlen > |input| then
        Outcome(None, None, Some(LengthTooLong))
      else if cbmdlen < HeaderSize then
        Outcome(None, None, Some(LengthTooShort))
      else
        var cbmd := header + input[HeaderSize..cbmdlen];
        var rest := input[cbmdlen..];
        assert cbmd == input[..cbmdlen];
        assert input == cbmd + rest;
        if !StartsWithCwav(rest) then
          Outcome(Some(cbmd), None, Some(CorruptCwav))
        else
          Outcome(Some(cbmd), Some(rest), None)
  }

  /** A banner the run accepts: CBMD magic, a declared length within [0x88, file length], and CWAV after it. */
  predicate WellFormed(input: seq<Byte>)
  {
    && |input| >= HeaderSize
    && LE32(input[..4]) == CbmdMagic
    && HeaderSize <= DeclaredLength(input) <= |input|
    && StartsWithCwav(input[DeclaredLength(input)..])
  }

  /** With a whole header in the file, the words the run reads are the file's magic and declared length. */
  lemma HeaderOfFile(input: seq<Byte>, stale: seq<Byte>)
    requires |stale| == HeaderSize && |input| >= HeaderSize
    ensures HeaderWords(ReadHeader(input, stale))[0] == LE32(input[..4])
    ensures HeaderWords(ReadHeader(input, stale))[LengthWord] as nat == DeclaredLength(input)
  {
    var h := ReadHeader(input, stale);
    assert h[..4] == input[..4];
    assert h[0x84..0x88] == input[0x84..0x88];
  }

  /**
    * The magic checks compare the first four bytes of a region with the ASCII
    * letters of the signature: "CBMD" for the banner, "CWAV" for the sound.
    */
  lemma SignatureBytes(b: seq<Byte>)
    requires |b| >= 4
    ensures LE32(b[..4]) == CbmdMagic <==> b[..4] == ['C' as Byte, 'B' as Byte, 'M' as Byte, 'D' as Byte]
    ensures LE32(b[..4]) == CwavMagic <==> b[..4] == ['C' as Byte, 'W' as Byte, 'A' as Byte, 'V' as Byte]
  {
    LE32Injective(b[..4], ['C' as Byte, 'B' as Byte, 'M' as Byte, 'D' as Byte]);
    LE32Injective(b[..4], ['C' as Byte, 'W' as Byte, 'A' as Byte, 'V' as Byte]);
  }

  /** A wrong CBMD magic stops the run before any output. */
  lemma RejectsCorruptCbmd(input: seq<Byte>, stale: seq<Byte>)
    requires |stale| == HeaderSize
    requires |input| >= 4 && LE32(input[..4]) != CbmdMagic
    ensures Extract(input, stale) == Outcome(None, None, Some(CorruptCbmd))
  {
    var h := ReadHeader(input, stale);
    assert h[..4] == input[..4];
  }

  /** A declared length beyond the end of the file stops the run before any output. */
  lemma RejectsLengthTooLong(input: seq<Byte>, stale: seq<Byte>)
    requires |stale| == HeaderSize
    requires |input| >= HeaderSize && LE32(input[..4]) == CbmdMagic
    requires DeclaredLength(input) > |input|
    ensures Extract(input, stale) == Outcome(None, None, Some(LengthTooLong))
  {
    HeaderOfFile(input, stale);
  }

  /** A declared length shorter than the header stops the run before any output. */
  lemma RejectsLengthTooShort(input: seq<Byte>, stale: seq<Byte>)
    requires |stale| == HeaderSize
    requires |input| >= HeaderSize && LE32(input[..4]) == CbmdMagic
    requires DeclaredLength(input) < HeaderSize
    ensures Extract(input, stale) == Outcome(None, None, Some(LengthTooShort))
  {
    HeaderOfFile(input, stale);
  }

  /** A file shorter than the header is never split, whatever the header buffer held before. */
  lemma ShortInputNoOutput(input: seq<Byte>, stale: seq<Byte>)
    requires |stale| == HeaderSize
    requires |input| < HeaderSize
    ensures Extract(input, stale).cbmd.None? && Extract(input, stale).bcwav.None?
    ensures Extract(input, stale).failure.Some?
  {
  }

  /**
    * The `.cbmd` output, when written, is the 0x88-byte header followed by
    * the payload: exactly the file's first `DeclaredLength` bytes.
    */
  lemma CbmdRegion(input: seq<Byte>, stale: seq<Byte>)
    requires |stale| == HeaderSize
    requires Extract(input, stale).cbmd.Some?
    ensures |input| >= HeaderSize
    ensures Extract(input, stale).cbmd.value == input[..DeclaredLength(input)]
    ensures |Extract(input, stale).cbmd.value| == DeclaredLength(input)
    ensures Extract(input, stale).cbmd.value[..HeaderSize] == input[..HeaderSize]
  {
  }

  /**
    * The `.bcwav` output, when written, is the rest of the file from
    * `DeclaredLength` on: it directly follows the CBMD region and starts with
    * the CWAV magic.
    */
  lemma BcwavRegion(input: seq<Byte>, stale: seq<Byte>)
    requires |stale| == HeaderSize
    requires Extract(input, stale).bcwav.Some?
    ensures |input| >= HeaderSize
    ensures Extract(input, stale).bcwav.value == input[DeclaredLength(input)..]
    ensures |Extract(input, stale).bcwav.value| == |input| - DeclaredLength(input)
    ensures StartsWithCwav(Extract(input, stale).bcwav.value)
  {
    CbmdRegion(input, stale);
  }

  /** The run succeeds exactly on well-formed banners. */
  lemma SucceedsIffWellFormed(input: seq<Byte>, stale: seq<Byte>)
    requires |stale| == HeaderSize
    ensures Extract(input, stale).failure.None? <==> WellFormed(input)
  {
    if |input| >= HeaderSize {
      HeaderOfFile(input, stale);
    }
  }

  /**
    * The late CWAV check: with a good header and length but no CWAV magic
    * after the CBMD region, the `.cbmd` output is still written and the
    * `.bcwav` output is not.
    */
  lemma CorruptCwavKeepsCbmd(input: seq<Byte>, stale: seq<Byte>)
    requires |stale| == HeaderSize
    requires |input| >= HeaderSize && LE32(input[..4]) == CbmdMagic
    requires HeaderSize <= DeclaredLength(input) <= |input|
    requires !StartsWithCwav(input[DeclaredLength(input)..])
    ensures Extract(input, stale) == Outcome(Some(input[..DeclaredLength(input)]), None, Some(CorruptCwav))
  {
    HeaderOfFile(input, stale);
  }

  /**
    * Splitting inverts concatenation: a CBMD file whose length word is its own
    * length, followed by a BCWAV file with the CWAV magic, comes apart into
    * exactly those two files.
    */
  lemma SplitConcatenation(cbmd: seq<Byte>, bcwav: seq<Byte>, stale: seq<Byte>)
    requires |stale| == HeaderSize
    requires |cbmd| >= HeaderSize && LE32(cbmd[..4]) == CbmdMagic
    requires LE32(cbmd[0x84..0x88]) as nat == |cbmd|
    requires StartsWithCwav(bcwav)
    ensures Extract(cbmd + bcwav, stale) == Outcome(Some(cbmd), Some(bcwav), None)
  {
    var input := cbmd + bcwav;
    assert input[..4] == cbmd[..4];
    assert input[0x84..0x88] == cbmd[0x84..0x88];
    assert input[|cbmd|..] == bcwav;
    CbmdRegion(input, stale);
    BcwavRegion(input, stale);
  }

  /** Once the file holds a whole header, the earlier contents of the header buffer make no difference. */
  lemma StaleIrrelevant(input: seq<Byte>, s1: seq<Byte>, s2: seq<Byte>)
    requires |s1| == HeaderSize && |s2| == HeaderSize
    requires |input| >= HeaderSize
    ensures Extract(input, s1) == Extract(input, s2)
  {
    HeaderOfFile(input, s1);
    HeaderOfFile(input, s2);
  }

  /** One `fwrite`-ed output file: its name and its contents. */
  datatype FileWrite = FileWrite(path: seq<char>, contents: seq<Byte>)

  /** What a run of the tool leaves behind: the files it wrote, in order, and its exit status. */
  datatype Run = Run(writes: seq<FileWrite>, exitStatus: int)

  /**
    * A run of the tool on the file named `infile` whose contents are `input`:
    * the `.cbmd` file is written before the `.bcwav` file, each at the input
    * name with its type replaced, and the status is 0 only when both were.
    */
  function Debanner(infile: seq<char>, input: seq<Byte>, stale: seq<Byte>): (r: Run)
    requires |stale| == HeaderSize
    ensures r.exitStatus == 0 || r.exitStatus == 1
    ensures r.exitStatus == 0 <==> |r.writes| == 2
    ensures |r.writes| <= 2
    ensures |r.writes| >= 1 ==> r.writes[0].path == FileType.Replaced(infile, ".cbmd")
    ensures |r.writes| == 2 ==> r.writes[1].path == FileType.Replaced(infile, ".bcwav")
    ensures |r.writes| >= 1 ==> |input| >= HeaderSize && DeclaredLength(input) <= |input|
    ensures |r.writes| >= 1 ==> r.writes[0].contents == input[..DeclaredLength(input)]
    ensures |r.writes| == 2 ==> r.writes[0].contents + r.writes[1].contents == input
  {
    var o := Extract(input, stale);
    var first := if o.cbmd.Some? then [FileWrite(FileType.Replaced(infile, ".cbmd"), o.cbmd.value)] else [];
    var second := if o.bcwav.Some? then [FileWrite(FileType.Replaced(infile, ".bcwav"), o.bcwav.value)] else [];
    Run(first + second, if o.failure.None? then 0 else 1)
  }

  /** A run exits with status 0 exactly on well-formed banners, and then its two files are the file's two regions. */
  lemma DebannerSucceeds(infile: seq<char>, input: seq<Byte>, stale: seq<Byte>)
    requires |stale| == HeaderSize
    ensures Debanner(infile, input, stale).exitStatus == 0 <==> WellFormed(input)
    ensures WellFormed(input) ==>
      Debanner(infile, input, stale).writes ==
        [FileWrite(FileType.Replaced(infile, ".cbmd"), input[..DeclaredLength(input)]),
         FileWrite(FileType.Replaced(infile, ".bcwav"), input[DeclaredLength(input)..])]
  {
    SucceedsIffWellFormed(input, stale);
    if WellFormed(input) {
      CbmdRegion(input, stale);
      BcwavRegion(input, stale);
    }
  }

  /**
    * The failed runs: a bad magic or a declared length outside [0x88, file
    * length] writes nothing; a failed CWAV check writes the `.cbmd` file
    * alone, holding the CBMD region. Each exits with status 1.
    */
  lemma DebannerFails(infile: seq<char>, input: seq<Byte>, stale: seq<Byte>)
    requires |stale| == HeaderSize
    ensures |input| >= HeaderSize && LE32(input[..4]) != CbmdMagic ==>
      Debanner(infile, input, stale) == Run([], 1)
    ensures |input| >= HeaderSize && LE32(input[..4]) == CbmdMagic &&
            !(HeaderSize <= DeclaredLength(input) <= |input|) ==>
      Debanner(infile, input, stale) == Run([], 1)
    ensures |input| >= HeaderSize && LE32(input[..4]) == CbmdMagic &&
            HeaderSize <= DeclaredLength(input) <= |input| &&
            !StartsWithCwav(input[DeclaredLength(input)..]) ==>
      Debanner(infile, input, stale) ==
        Run([FileWrite(FileType.Replaced(infile, ".cbmd"), input[..DeclaredLength(input)])], 1)
  {
    if |input| >= HeaderSize {
      HeaderOfFile(input, stale);
      if Extract(input, stale).cbmd.Some? {
        CbmdRegion(input, stale);
      }
    }
  }
}
