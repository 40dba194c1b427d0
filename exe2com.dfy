/**
 * EXE2COM: turns a 16-bit DOS executable image into a raw .COM image by
 * dropping a fixed 64-byte header and zero-padding the rest to 4 KB.
 *
 * Files are modelled as byte sequences. Opening a file either fails (`None`)
 * or yields its contents (`Some(bytes)`); whether the destination can be
 * created is a boolean supplied by the caller (filesystem state).
 */
module Exe2Com {

  newtype byte = x: int | 0 <= x < 0x100

  datatype Option<T> = None | Some(value: T)

  /** Size of the header that is skipped, as a fixed constant (no header field is parsed). */
  const EXE_HEADER_SIZE: nat := 0x40
  /** Size the .COM image is padded up to. */
  const COM_FILE_SIZE: nat := 0x1000
  /** Signature of a DOS executable. */
  const EXE_MAGIC: string := "MZ"
  /** Capacity of the copy buffer, i.e. the most bytes one read delivers. */
  const BUFFER_SIZE: nat := 1024

  function Min(a: int, b: int): int { if a <= b then a else b }
  function Max(a: int, b: int): int { if a <= b then b else a }

  // ---------------------------------------------------------------------
  // Signature check
  // ---------------------------------------------------------------------

  /** The signature bytes are read into an uninitialised two-byte buffer
      whose fill is not checked, and compared with a short-circuit `&&`. The
      verdict is therefore determined exactly when the comparison never
      reaches an unread byte: the file has two bytes, or its only byte is
      not 'M' (so the second byte is never compared). */
  predicate SignatureReadable(exe: seq<byte>)
  {
    |exe| >= 2 || (|exe| == 1 && exe[0] as int != EXE_MAGIC[0] as int)
  }

  /** The first two bytes are 'M' and 'Z'; nothing else is inspected. */
  predicate IsValidExe(exe: seq<byte>)
    requires SignatureReadable(exe)
  {
    exe[0] as int == EXE_MAGIC[0] as int && exe[1] as int == EXE_MAGIC[1] as int
  }

  /** Accepted exactly when the file starts with the bytes 0x4D 0x5A. */
  lemma SignatureIsMZ(exe: seq<byte>)
    requires SignatureReadable(exe)
    ensures IsValidExe(exe) <==> |exe| >= 2 && exe[..2] == [0x4D, 0x5A]
  {
    if |exe| >= 2 && exe[..2] == [0x4D, 0x5A] {
      assert exe[0] == exe[..2][0] && exe[1] == exe[..2][1];
    }
  }

  /** A one-byte file whose byte is not 'M' is rejected without ever
      comparing the missing second byte; a one-byte "M" or an empty file
      leaves the verdict undetermined. */
  lemma OneByteSignature(exe: seq<byte>)
    requires |exe| == 1
    ensures SignatureReadable(exe) <==> exe[0] != 0x4D
    ensures SignatureReadable(exe) ==> !IsValidExe(exe)
  {
  }

  /** Only the two signature bytes matter: files that agree on them are judged alike. */
  lemma SignatureIgnoresRest(a: seq<byte>, b: seq<byte>)
    requires |a| >= 2 && |b| >= 2
    requires a[..2] == b[..2]
    ensures IsValidExe(a) <==> IsValidExe(b)
  {
    assert a[0] == a[..2][0] == b[..2][0] == b[0];
    assert a[1] == a[..2][1] == b[..2][1] == b[1];
  }

  // ---------------------------------------------------------------------
  // Specification of the produced image
  // ---------------------------------------------------------------------

  /** What a stream over `file` positioned at `pos` delivers to one
      fread of at most `max` bytes. Seeking past the end is legal; reading
      there yields nothing. */
  function Read(file: seq<byte>, pos: nat, max: nat): (chunk: seq<byte>)
    ensures |chunk| == if pos < |file| then Min(max, |file| - pos) else 0
    ensures forall i :: 0 <= i < |chunk| ==> chunk[i] == file[pos + i]
  {
    if pos >= |file| then [] else file[pos..Min(pos + max, |file|)]
  }

  /** The bytes after the header; empty when the file is no longer than the header. */
  function Payload(exe: seq<byte>): (p: seq<byte>)
    ensures |p| == Max(0, |exe| - EXE_HEADER_SIZE)
    ensures forall i :: 0 <= i < |p| ==> p[i] == exe[EXE_HEADER_SIZE + i]
  {
    if |exe| <= EXE_HEADER_SIZE then [] else exe[EXE_HEADER_SIZE..]
  }

  function Zeros(n: nat): (z: seq<byte>)
    ensures |z| == n
    ensures forall i :: 0 <= i < n ==> z[i] == 0
  {
    seq(n, _ => 0)
  }

  /** `data` followed by zero bytes up to COM_FILE_SIZE; longer data is kept whole. */
  function Padded(data: seq<byte>): (r: seq<byte>)
    ensures |r| == Max(|data|, COM_FILE_SIZE)
    ensures r[..|data|] == data
    ensures forall i :: |data| <= i < |r| ==> r[i] == 0
  {
    if |data| < COM_FILE_SIZE then data + Zeros(COM_FILE_SIZE - |data|) else data
  }

  /** The .COM image produced from the executable `exe`: the payload
      verbatim, then zeros, total length max(4096, |exe| - 64). */
  function ComImage(exe: seq<byte>): (r: seq<byte>)
    ensures |r| == Max(COM_FILE_SIZE, |exe| - EXE_HEADER_SIZE)
    ensures forall i :: 0 <= i < |exe| - EXE_HEADER_SIZE ==> r[i] == exe[EXE_HEADER_SIZE + i]
    ensures forall i :: Max(0, |exe| - EXE_HEADER_SIZE) <= i < |r| ==> r[i] == 0
  {
    var p := Payload(exe);
    var r := Padded(p);
    assert forall i :: 0 <= i < |p| ==> r[i] == r[..|p|][i];
    r
  }

  /** No header remainder and no payload: the image is 4096 zero bytes. */
  lemma ShortExeGivesZeroImage(exe: seq<byte>)
    requires |exe| <= EXE_HEADER_SIZE
    ensures ComImage(exe) == Zeros(COM_FILE_SIZE)
  {
    assert Payload(exe) == [];
  }

  /** Padding never truncates: a payload of 4096 bytes or more is the whole image. */
  lemma LongPayloadNotTruncated(exe: seq<byte>)
    requires |exe| - EXE_HEADER_SIZE >= COM_FILE_SIZE
    ensures ComImage(exe) == exe[EXE_HEADER_SIZE..]
  {
  }

  /** A 66-byte executable whose payload is 0xAB 0xCD gives those two bytes and 4094 zeros. */
  lemma TwoBytePayload(exe: seq<byte>)
    requires |exe| == EXE_HEADER_SIZE + 2
    requires exe[EXE_HEADER_SIZE] == 0xAB && exe[EXE_HEADER_SIZE + 1] == 0xCD
    ensures ComImage(exe) == [0xAB, 0xCD] + Zeros(COM_FILE_SIZE - 2)
  {
    assert Payload(exe) == [0xAB, 0xCD];
  }

  // ---------------------------------------------------------------------
  // Chunked copy
  // ---------------------------------------------------------------------

  /** The successive non-empty reads of a BUFFER_SIZE buffer that consume `s`:
      every chunk but the last is full, and none is empty. */
  function Chunks(s: seq<byte>): (cs: seq<seq<byte>>)
    ensures forall i :: 0 <= i < |cs| ==> 0 < |cs[i]| <= BUFFER_SIZE
    ensures forall i :: 0 <= i < |cs| - 1 ==> |cs[i]| == BUFFER_SIZE
    ensures s == [] <==> cs == []
    decreases |s|
  {
    if s == [] then []
    else
      var n := Min(|s|, BUFFER_SIZE);
      [s[..n]] + Chunks(s[n..])
  }

  function Flatten(cs: seq<seq<byte>>): seq<byte>
  {
    if cs == [] then [] else cs[0] + Flatten(cs[1..])
  }

  /** Writing the chunks back to back reproduces the payload. */
  lemma {:induction false} FlattenChunks(s: seq<byte>)
    ensures Flatten(Chunks(s)) == s
    decreases |s|
  {
    if s != [] {
      var n := Min(|s|, BUFFER_SIZE);
      FlattenChunks(s[n..]);
      assert s == s[..n] + s[n..];
    }
  }

  /** The next read from position `pos` is the next chunk of the payload. */
  lemma ReadIsNextChunk(exe: seq<byte>, pos: nat)
    requires EXE_HEADER_SIZE <= pos
    requires pos - EXE_HEADER_SIZE < |Payload(exe)|
    ensures Chunks(Payload(exe)[pos - EXE_HEADER_SIZE..])
         == [Read(exe, pos, BUFFER_SIZE)]
            + Chunks(Payload(exe)[pos - EXE_HEADER_SIZE + |Read(exe, pos, BUFFER_SIZE)|..])
  {
    var p := Payload(exe);
    var k := pos - EXE_HEADER_SIZE;
    var s := p[k..];
    var c := Read(exe, pos, BUFFER_SIZE);
    var n := Min(|s|, BUFFER_SIZE);
    assert |c| == n;
    assert s[..n] == c;
    assert s[n..] == p[k + n..];
  }

  /** Appending the next read to the bytes already copied gives a longer
      prefix of the payload. */
  lemma ReadExtendsPrefix(exe: seq<byte>, pos: nat)
    requires EXE_HEADER_SIZE <= pos < EXE_HEADER_SIZE + |Payload(exe)|
    ensures pos - EXE_HEADER_SIZE + |Read(exe, pos, BUFFER_SIZE)| <= |Payload(exe)|
    ensures Payload(exe)[..pos - EXE_HEADER_SIZE + |Read(exe, pos, BUFFER_SIZE)|]
         == Payload(exe)[..pos - EXE_HEADER_SIZE] + Read(exe, pos, BUFFER_SIZE)
  {
    var p := Payload(exe);
    var k := pos - EXE_HEADER_SIZE;
    var c := Read(exe, pos, BUFFER_SIZE);
    assert forall i :: 0 <= i < |c| ==> c[i] == p[k + i];
  }

  /** One pass of the copy loop keeps the loop's invariants. */
  lemma CopyStep(exe: seq<byte>, pos: nat, chunks: seq<seq<byte>>)
    requires EXE_HEADER_SIZE <= pos < EXE_HEADER_SIZE + |Payload(exe)|
    requires chunks + Chunks(Payload(exe)[pos - EXE_HEADER_SIZE..]) == Chunks(Payload(exe))
    ensures pos - EXE_HEADER_SIZE + |Read(exe, pos, BUFFER_SIZE)| <= |Payload(exe)|
    ensures Payload(exe)[..pos - EXE_HEADER_SIZE + |Read(exe, pos, BUFFER_SIZE)|]
         == Payload(exe)[..pos - EXE_HEADER_SIZE] + Read(exe, pos, BUFFER_SIZE)
    ensures (chunks + [Read(exe, pos, BUFFER_SIZE)])
            + Chunks(Payload(exe)[pos - EXE_HEADER_SIZE + |Read(exe, pos, BUFFER_SIZE)|..])
         == Chunks(Payload(exe))
  {
    var buffer := Read(exe, pos, BUFFER_SIZE);
    var rest := Chunks(Payload(exe)[pos - EXE_HEADER_SIZE + |buffer|..]);
    ReadExtendsPrefix(exe, pos);
    ReadIsNextChunk(exe, pos);
    assert (chunks + [buffer]) + rest == chunks + ([buffer] + rest);
  }

  /** When a read returns nothing, the whole payload has been copied and
      every chunk has been read. */
  lemma CopyLoopExit(exe: seq<byte>, pos: nat, chunks: seq<seq<byte>>)
    requires EXE_HEADER_SIZE <= pos <= EXE_HEADER_SIZE + |Payload(exe)|
    requires Read(exe, pos, BUFFER_SIZE) == []
    requires chunks + Chunks(Payload(exe)[pos - EXE_HEADER_SIZE..]) == Chunks(Payload(exe))
    ensures Payload(exe)[..pos - EXE_HEADER_SIZE] == Payload(exe)
    ensures chunks == Chunks(Payload(exe))
  {
    assert pos - EXE_HEADER_SIZE == |Payload(exe)|;
    assert Payload(exe)[pos - EXE_HEADER_SIZE..] == [];
  }

  /** When the padding loop stops, the output is the padded payload. */
  lemma PadLoopExit(payload: seq<byte>, size: nat)
    requires |payload| <= size <= Max(|payload|, COM_FILE_SIZE)
    requires size >= COM_FILE_SIZE
    ensures payload + Zeros(size - |payload|) == Padded(payload)
  {
    if |payload| >= COM_FILE_SIZE {
      assert payload + [] == payload;
    }
  }

  /** One more zero byte extends the padding by one. */
  lemma PadStep(payload: seq<byte>, n: nat)
    ensures payload + Zeros(n + 1) == (payload + Zeros(n)) + [0]
  {
    assert Zeros(n + 1) == Zeros(n) + [0];
  }

  /** Copy loop and padding loop of the conversion: seek past the header,
      append every buffer-full read until a read returns nothing, then
      append zeros while the output is shorter than COM_FILE_SIZE. The
      ghost `chunks` records the successive reads. */
  method CopyAndPad(exe: seq<byte>) returns (com: seq<byte>, ghost chunks: seq<seq<byte>>)
    ensures chunks == Chunks(Payload(exe))
    ensures Flatten(chunks) == Payload(exe)
    ensures com == ComImage(exe)
  {
    ghost var payload := Payload(exe);
    var pos: nat := EXE_HEADER_SIZE;
    com := [];
    chunks := [];
    var buffer := Read(exe, pos, BUFFER_SIZE);
    while |buffer| > 0
      invariant EXE_HEADER_SIZE <= pos <= EXE_HEADER_SIZE + |payload|
      invariant buffer == Read(exe, pos, BUFFER_SIZE)
      invariant com == payload[..pos - EXE_HEADER_SIZE]
      invariant chunks + Chunks(payload[pos - EXE_HEADER_SIZE..]) == Chunks(payload)
      decreases EXE_HEADER_SIZE + |payload| - pos
    {
      CopyStep(exe, pos, chunks);
      com := com + buffer;
      chunks := chunks + [buffer];
      pos := pos + |buffer|;
      buffer := Read(exe, pos, BUFFER_SIZE);
    }
    CopyLoopExit(exe, pos, chunks);
    FlattenChunks(payload);

    var currentSize := |com|;
    while currentSize < COM_FILE_SIZE
      invariant currentSize == |com|
      invariant |payload| <= currentSize <= Max(|payload|, COM_FILE_SIZE)
      invariant com == payload + Zeros(currentSize - |payload|)
      decreases COM_FILE_SIZE - currentSize
    {
      PadStep(payload, currentSize - |payload|);
      com := com + [0];
      currentSize := currentSize + 1;
    }
    PadLoopExit(payload, currentSize);
  }

  // ---------------------------------------------------------------------
  // The conversion, with its error paths
  // ---------------------------------------------------------------------

  datatype Outcome =
    | ExeOpenError          // the source could not be opened
    | SignatureUnreadable   // the comparison would read an unread signature byte (undefined in C)
    | NotDosExe             // the source does not start with "MZ"
    | ComCreateError        // the destination could not be created
    | Complete              // the image was written

  /** convert_exe_to_com. `exe` is the source as opened (None: it cannot be
      opened), `com` is what is on disk at the destination path before the
      call (None: no file) and `comCreatable` tells whether opening it for
      writing succeeds. Returns the outcome and what is on disk afterwards. */
  method ConvertExeToCom(exe: Option<seq<byte>>, com: Option<seq<byte>>, comCreatable: bool)
    returns (outcome: Outcome, comAfter: Option<seq<byte>>)
    ensures outcome == ExeOpenError <==> exe.None?
    ensures outcome == SignatureUnreadable <==> exe.Some? && !SignatureReadable(exe.value)
    ensures outcome == NotDosExe <==>
              exe.Some? && SignatureReadable(exe.value) && !IsValidExe(exe.value)
    ensures outcome == ComCreateError <==>
              exe.Some? && SignatureReadable(exe.value) && IsValidExe(exe.value) && !comCreatable
    ensures outcome == Complete <==>
              exe.Some? && SignatureReadable(exe.value) && IsValidExe(exe.value) && comCreatable
    ensures outcome in {ExeOpenError, NotDosExe, ComCreateError} ==> comAfter == com
    ensures outcome == Complete ==> comAfter == Some(ComImage(exe.value))
  {
    if exe.None? {
      return ExeOpenError, com;
    }
    var src := exe.value;
    if !SignatureReadable(src) {
      return SignatureUnreadable, com;
    }
    if !IsValidExe(src) {
      return NotDosExe, com;
    }
    if !comCreatable {
      return ComCreateError, com;
    }
    // fopen(..., "wb") creates the file or truncates what was there
    comAfter := Some([]);
    var image;
    ghost var chunks;
    image, chunks := CopyAndPad(src);
    assert comAfter.value + image == image;
    comAfter := Some(comAfter.value + image);
    outcome := Complete;
  }

  /** The destination's prior contents play no part: converting the same
      source twice leaves the same bytes on disk both times. */
  method ConvertTwice(exe: Option<seq<byte>>, com: Option<seq<byte>>, comCreatable: bool)
    returns (first: Option<seq<byte>>, second: Option<seq<byte>>)
    requires exe.None? || SignatureReadable(exe.value)
    ensures first == second
  {
    var o1, o2;
    o1, first := ConvertExeToCom(exe, com, comCreatable);
    o2, second := ConvertExeToCom(exe, first, comCreatable);
  }

  // ---------------------------------------------------------------------
  // Command line
  // ---------------------------------------------------------------------

  datatype Action =
    | Help                                  // "/?": usage, success
    | Usage                                 // missing arguments: usage, failure
    | ExeMissing                            // the pre-check could not open the source
    | Convert(exeFile: string, comFile: string)

  /** main's decision. `args` is argv (args[0] is the program name), so
      argc == |args|; `exeOpens` is whether the pre-check can open args[1]. */
  function Dispatch(args: seq<string>, exeOpens: bool): Action
  {
    if |args| == 2 && args[1] == "/?" then Help
    else if |args| < 3 then Usage
    else if !exeOpens then ExeMissing
    else Convert(args[1], args[2])
  }

  function ExitCode(a: Action): int
  {
    match a
    case Help => 0
    case Usage => 1
    case ExeMissing => 1
    case Convert(_, _) => 0
  }

  /** Exit status 1 exactly for missing arguments (other than "/?") and an
      unopenable source; 0 otherwise, whatever the conversion does. */
  lemma ExitCodeRules(args: seq<string>, exeOpens: bool)
    ensures ExitCode(Dispatch(args, exeOpens)) in {0, 1}
    ensures |args| == 2 && args[1] == "/?" ==> Dispatch(args, exeOpens) == Help
    ensures ExitCode(Dispatch(args, exeOpens)) == 1 <==>
              (|args| < 3 && !(|args| == 2 && args[1] == "/?")) || (|args| >= 3 && !exeOpens)
    ensures |args| >= 3 && exeOpens ==> Dispatch(args, exeOpens) == Convert(args[1], args[2])
  {
  }

  /** Arguments after the second file name are ignored. */
  lemma ExtraArgumentsIgnored(args: seq<string>, extra: seq<string>, exeOpens: bool)
    requires |args| >= 3
    ensures Dispatch(args + extra, exeOpens) == Dispatch(args, exeOpens)
  {
    assert (args + extra)[1] == args[1] && (args + extra)[2] == args[2];
  }

  /** main. `exe` is the source named by args[1] as opened (None: it cannot
      be opened), `com` and `comCreatable` describe the destination named by
      args[2]. Both opens of the source see the same filesystem state. */
  method Run(args: seq<string>, exe: Option<seq<byte>>, com: Option<seq<byte>>, comCreatable: bool)
    returns (exitCode: int, comAfter: Option<seq<byte>>)
    ensures exitCode == ExitCode(Dispatch(args, exe.Some?))
    ensures !Dispatch(args, exe.Some?).Convert? ==> comAfter == com
    ensures Dispatch(args, exe.Some?).Convert? && SignatureReadable(exe.value) ==>
              comAfter == if IsValidExe(exe.value) && comCreatable
                          then Some(ComImage(exe.value)) else com
  {
    var action := Dispatch(args, exe.Some?);
    match action
    case Help =>
      return 0, com;
    case Usage =>
      return 1, com;
    case ExeMissing =>
      return 1, com;
    case Convert(_, _) =>
      var outcome;
      outcome, comAfter := ConvertExeToCom(exe, com, comCreatable);
      exitCode := 0;
  }
}
