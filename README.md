# EXE2COM in Dafny

A model of the EXE-to-COM converter of `main.c`. The converter checks that the
source file starts with the DOS executable signature `MZ`, skips a fixed
64-byte header (`EXE_HEADER_SIZE`), copies the rest of the file through a
1024-byte buffer into the destination, and appends zero bytes until the
destination holds 4096 bytes (`COM_FILE_SIZE`). A longer payload is kept
whole. `main` decides from the command line whether to print usage, stop on
a missing source, or convert, and picks the exit code.

Everything is in `exe2com.dfy`, module `Exe2Com`:

- Files are byte sequences (`byte` is a newtype over 0..255). Opening the
  source yields `Some(contents)` or `None`. The destination on disk is an
  `Option<seq<byte>>` (`None`: no such file) that the conversion takes and
  returns. Whether the destination can be created is a boolean parameter.
- `Read(file, pos, max)` is what one `fread` returns from a stream at
  position `pos`. A position past the end is legal and reads nothing.
- `ComImage(exe)` is the image the program writes: `Payload(exe)` (the
  bytes after the header) padded by `Padded`. `Chunks(s)` is the sequence
  of non-empty buffer reads that consume `s`.
- `CopyAndPad` holds the copy loop and the padding loop, carrying the
  loops' invariants. It is proved to produce `ComImage(exe)` through the
  reads `Chunks(Payload(exe))`.
- `ConvertExeToCom` is `convert_exe_to_com` with its error paths as an
  `Outcome`. `Dispatch`, `ExitCode` and `Run` model `main`.

The signature bytes are read into an uninitialised buffer (`fread` at
main.c:33 is not checked) and compared with a short-circuit `&&`
(main.c:34). `SignatureReadable` holds when that comparison never touches an
unread byte: the source has at least two bytes, or its only byte is not
'M'. A one-byte source such as `P` is therefore rejected as not an
executable, like any other bad signature. An empty source, or the single
byte `M`, makes the C code compare uninitialised memory. The model gives
those two cases an explicit `SignatureUnreadable` outcome and promises
nothing about the destination. `IsValidExe` requires `SignatureReadable`.

The exit code is 0 whenever conversion is attempted, even when it fails on
the signature or on creating the destination. The model keeps this
behaviour of the code.

## Model

| member | source | states |
|---|---|---|
| Exe2Com.IsValidExe | main.c:28-35 | the signature test itself (byte 0 is 'M' and byte 1 is 'Z'); its meaning is stated by SignatureIsMZ, SignatureIgnoresRest and OneByteSignature |
| Exe2Com.SignatureIsMZ | main.c:28-35 | a source whose signature can be read is accepted exactly when it has at least two bytes and they are 0x4D 0x5A ('M', 'Z') |
| Exe2Com.OneByteSignature | main.c:33-34 | a one-byte source gives a definite verdict exactly when its byte is not 'M', and that verdict is a rejection |
| Exe2Com.SignatureIgnoresRest | main.c:28-35 | two sources with the same first two bytes are both accepted or both rejected; no other header byte is inspected |
| Exe2Com.Read | main.c:71 | one read from position `pos` returns min(max, length - pos) bytes, equal to the file's bytes from `pos`; past the end it returns nothing |
| Exe2Com.Payload | main.c:68-73 | the payload has length max(0, length - 64) and byte i is source byte 64 + i |
| Exe2Com.Padded | main.c:76-80 | padding gives length max(length of data, 4096), keeps `data` as a prefix and makes every added byte 0 |
| Exe2Com.ComImage | main.c:67-80 | the image has length max(4096, length - 64), bytes [0, length - 64) equal source bytes [64, length), and every later byte is 0 |
| Exe2Com.ShortExeGivesZeroImage | main.c:68-80 | a source of at most 64 bytes gives exactly 4096 zero bytes |
| Exe2Com.LongPayloadNotTruncated | main.c:76-80 | a payload of 4096 bytes or more is the whole image; nothing is cut off |
| Exe2Com.TwoBytePayload | main.c:68-80 | a 66-byte source whose bytes 64 and 65 are 0xAB 0xCD gives 0xAB 0xCD followed by 4094 zeros |
| Exe2Com.Chunks | main.c:41-73 | every chunk read holds between 1 and 1024 bytes, every chunk but the last holds exactly 1024, and there is no chunk exactly when there is no payload |
| Exe2Com.FlattenChunks | main.c:71-73 | writing the chunks back to back reproduces the payload |
| Exe2Com.CopyAndPad | main.c:67-80 | the reads made by the copy loop are exactly the chunks of the payload, their concatenation is the payload, and the output after padding is ComImage(source) |
| Exe2Com.ConvertExeToCom | main.c:38-86 | an unopenable source, a bad signature (including a one-byte source that is not 'M') or an uncreatable destination each give their own outcome and leave the destination as it was; for a source whose signature can be read and is valid, with a creatable destination, the destination holds ComImage(source), whatever it held before; an empty source or the single byte 'M' gives SignatureUnreadable |
| Exe2Com.ConvertTwice | main.c:60 | converting the same source twice (unopenable, or with a readable signature) leaves the same destination contents both times |
| Exe2Com.Dispatch | main.c:95-120 | main's decision between help, usage, a missing source and conversion; its rules are stated by ExitCodeRules and ExtraArgumentsIgnored |
| Exe2Com.ExitCode | main.c:97-122 | the exit code of each decision (0 for help and conversion, 1 for usage and a missing source); its rules are stated by ExitCodeRules |
| Exe2Com.ExitCodeRules | main.c:95-122 | `/?` as the only argument gives help; exit 1 exactly for too few arguments and an unopenable source; exit 0 otherwise, with conversion of argv[1] into argv[2] |
| Exe2Com.ExtraArgumentsIgnored | main.c:101-109 | arguments after the second file name do not change the decision |
| Exe2Com.Run | main.c:88-123 | the exit code follows the dispatch; the destination is untouched unless conversion is attempted; for a source whose signature can be read it then changes only when the signature is valid and the destination can be created, and holds ComImage(source) |

## Left out

- Real file I/O (`fopen`, `fread`, `fwrite`, `fseek`, `ftell`, `fclose`): files are byte sequences. The destination's new contents are produced whole, so a partly written file is not modelled.
- Failures of `fwrite` and `fputc`: the code ignores their results, so it promises nothing there.
- Failure of `ftell`: main.c:76 uses its result as the current size but does not check it for the failure value -1L (which would make the padding loop write 4097 zero bytes). The model takes the current size to be the number of bytes written.
- Console output (`print_usage`, `perror`, the completion message): the model only records which outcome was reported.
- The source being opened twice (the check in `main`, then in `convert_exe_to_com`): both opens see the same filesystem state. A file that changes between them is not modelled.
- The same path given as source and destination: the model treats the source contents and the destination as independent.
- An empty source or the single byte `M`: the C code compares uninitialised memory, so the model returns `SignatureUnreadable`. It says nothing about the destination in that case.
- MZ header semantics (header size field, relocations): the code skips a fixed 64 bytes and parses nothing.
