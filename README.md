# image-encryption in Dafny

This project models the core of a small C tool. The tool encrypts plain
Netpbm images (P1 bitmaps, P2 graymaps, P3 pixmaps) by XOR-ing every sample
with a key stream from a linear feedback shift register (LFSR). The LFSR's
seed comes from a password: every base64 character becomes its 6-bit index.
The project proves properties of the model.

The model covers four parts:

- **The LFSR** (`lfsr.dfy`, module `LfsrEngine`). On sequences, `Step` is one
  operation, `Run` is n operations, `Keystream` is the feedback bits and
  `Generated` is the number that `generation` returns. The class `Lfsr` is the
  mutable register (an `array<nat>` and its tap). Its methods are proved
  against those functions.
- **The image reader** (`pnm_read.dfy`, module `PnmRead`, and `pnm.dfy`). The
  reader is a function of the text that is still unread:
  - `SkipData` is `go_to_next_data`;
  - `ReadSample` is one sample of `store_pixels`;
  - `LoadPnm` is `load_pnm`, including its error codes −1, −2 and −3.
  The methods of module `PnmFile` (class `Pnm` and the loops of
  `go_to_next_data` and `store_pixels`) are proved to compute those functions.
- **The writer and the cipher** (`pnm_write.dfy`, `pnm_crypt.dfy`, `pnm.dfy`).
  `WritePnm` is the text `write_pnm` prints. `EncryptImage` is what
  `pnm_file_encryption` does. The in-place loops of `Pnm.Write` and
  `Pnm.Encrypt` are proved against them.
- **The string helpers** (`utils.dfy`): the password conversion
  `base64_string_to_binary_string`, `get_file_extension` and
  `check_file_name`.

The C library calls the reader depends on are written out in `cformat.dfy`,
for the "C" locale and ASCII: `isgraph`, `isspace`, `printf`'s `%u`/`%d`, and
`scanf`'s `%u`, `"%u %u"` and `%2[^#]`. Unsigned 32-bit and 16-bit arithmetic
and C's `^` are in `bits.dfy`.

The reader follows the C code where it differs from the Netpbm format:

- A P1 bit must be separated from the next by white space. `"01"` is read as
  one sample, so the load fails (`PnmExamples.BitsRunTogether`).
- The width and height are read with a single `"%u %u"`. A comment between
  them fails the load (`PnmRead.CommentInSizeFails`).
- The magic number is read with `%2[^#]`. So `"P13 1"` reads as the magic P1
  followed by width 3 and height 1 (`PnmExamples.MagicTakesTwo`).
- The magic number must be on line 1, so a leading comment or line break
  gives −3.
- The maximum value that encryption leaves is the largest low 16 bits of an
  encrypted sample. So decrypting restores the samples but not necessarily
  the original maximum value (`PnmCrypt.DecryptRestores`).

## Model

| member | source | states |
|---|---|---|
| Bits.XorInvolutive | pnm/pnm.c:378 | XOR-ing a value twice with the same key gives the value back |
| Bits.XorBound | pnm/pnm.c:378 | the XOR of two k-bit values is a k-bit value, so `^` of two unsigned ints stays an unsigned int |
| CFormat.Decimal | pnm/pnm.c:332 | `%u` prints at least one digit, only digits, whose decimal value is the number |
| CFormat.PrintSigned32 | pnm/pnm.c:337 | `%d` of an unsigned int v prints only digits whose value is v when v < 2^31, and from 2^31 up a '-' followed by digits whose value is 2^32 − v |
| CFormat.ScanUnsigned | pnm/pnm.c:139 | `%u` fails exactly when no digit follows the leading white space; otherwise it consumes input |
| CFormat.ScanPair | pnm/pnm.c:258 | `"%u %u"` consumes input when it succeeds |
| CFormat.ScanMagic | pnm/pnm.c:200 | `%2[^#]` reads one or two characters, none of them '#', stopping at a '#' or the end; it fails exactly on an empty input or a leading '#' |
| CFormat.ScanDecimal | pnm/pnm.c:139 | `%u` reads back, after any white space and up to a non-digit, the number `%u` printed |
| CFormat.ScanPairDecimal | pnm/pnm.c:258 | `"%u %u"` reads back the two numbers of the size line the writer prints |
| LfsrEngine.Feedback | lfsr/lfsr.c:69 | the feedback bit is 1 exactly when the first cell differs from the cell tap places from the right |
| LfsrEngine.Step | lfsr/lfsr.c:65-77 | an operation shifts every cell one to the left and stores the feedback bit in the last cell |
| LfsrEngine.Keystream | lfsr/lfsr.c:79-88 | n operations produce n bits |
| LfsrEngine.SeedRegister | lfsr/lfsr.c:27-63 | an accepted seed loads a register of bits with the tap inside it |
| LfsrEngine.SeedRoundTrip | lfsr/lfsr.c:102-113 | to_string of a freshly created register gives back the seed |
| LfsrEngine.RunAdd | lfsr/lfsr.c:83-86 | a + b operations are a operations, then b |
| LfsrEngine.KeystreamAdd | lfsr/lfsr.c:83-86 | the bits of a + b operations are those of a, then those of the next b |
| LfsrEngine.KeystreamSnoc | lfsr/lfsr.c:83-86 | one more operation appends its feedback bit and advances the register by one step |
| LfsrEngine.BitsValueAppend | lfsr/lfsr.c:85 | reading x followed by y as a number is x shifted left by the length of y, plus y |
| LfsrEngine.BitsValueBound | lfsr/lfsr.c:85 | k bits read as a number are below 2^k |
| LfsrEngine.GeneratedBound | lfsr/lfsr.c:79-88 | for k ≤ 32 generation does not wrap: it returns the k bits as a number, below 2^k |
| LfsrEngine.GeneratedAdd | lfsr/lfsr.c:79-88 | generating a + b bits is generating a bits, shifting by b and adding the next b-bit number, mod 2^32 |
| LfsrEngine.GenerationStep | lfsr/lfsr.c:85 | one turn of generation's loop, in 32-bit arithmetic, extends the value by the next feedback bit |
| LfsrEngine.Lfsr.Create | lfsr/lfsr.c:27-63 | create_lfsr returns null exactly when the tap is outside the seed or the seed holds a character other than '0'/'1'; otherwise a fresh register holding the seed's digits and the tap |
| LfsrEngine.Lfsr.Operation | lfsr/lfsr.c:65-77 | operation returns the feedback bit and leaves the register one step further |
| LfsrEngine.Lfsr.Generation | lfsr/lfsr.c:79-88 | generation(k) returns the k feedback bits read as a number mod 2^32, and leaves the register k steps further |
| LfsrEngine.Lfsr.GetRegister | lfsr/lfsr.c:90-94 | get_register returns the register array itself, not a copy |
| LfsrEngine.Lfsr.GetTap | lfsr/lfsr.c:96-100 | get_tap returns the tap |
| LfsrEngine.Lfsr.ToString | lfsr/lfsr.c:102-113 | to_string writes one '0' or '1' per cell, in order |
| LfsrExamples.CreateExamples | tests/lfsr_tests.c:82-98 | seed 01101000010 with tap 8 is accepted; taps 8000 and −8 and a non-binary seed are refused |
| LfsrExamples.ExampleRegister | tests/lfsr_tests.c:127-135 | the example seed loads the register 0,1,1,0,1,0,0,0,0,1,0 |
| LfsrExamples.OperationExample | tests/lfsr_tests.c:100-110 | one operation on the example register returns 1 and leaves 1,1,0,1,0,0,0,0,1,0,1 |
| LfsrExamples.GenerationExample | tests/lfsr_tests.c:112-125 | generating 5 bits from the example register returns 25 and leaves 0,0,0,0,1,0,1,1,0,0,1 |
| LfsrExamples.ToStringExample | tests/lfsr_tests.c:147-156 | to_string of the example register is the seed |
| LfsrExamples.Deterministic | lfsr/lfsr.c:79-88 | two registers created from the same seed and tap generate the same number |
| LfsrExamples.SplitGeneration | lfsr/lfsr.c:79-88 | with real registers, one generation of a + b bits equals the a-bit number shifted by b plus the next b-bit number, mod 2^32 |
| PnmImage.RowSamples | pnm/pnm.c:118-122 | the row length is an unsigned int: the width for P1 and P2, three times the width for P3 when that fits in 32 bits, and less than that when it wraps |
| PnmImage.MagicText | pnm/pnm.c:318-329 | the magic number is written as two characters starting with 'P' |
| PnmImage.CellsProduct | utils/utils.c:24-49 | the matrix of lines rows of rowLength samples has lines × rowLength cells |
| PnmImage.Low16 | pnm/pnm.c:350 | every sample is printed as its low 16 bits (`(unsigned short)`) |
| PnmCrypt.Xor32 | pnm/pnm.c:378 | the encrypted sample, XOR-ed with the key, gives the sample back |
| PnmCrypt.KeyWordGenerated | pnm/pnm.c:377 | the key of the i-th sample is what generation(lfsr, 32) returns after i earlier calls |
| PnmCrypt.EncryptPixelsInverts | pnm/pnm.c:378 | every encrypted sample, XOR-ed with its key, gives back the original sample |
| PnmCrypt.MaxLow16 | pnm/pnm.c:380-386 | the running maximum is below 2^16, at least the low 16 bits of every sample, and one of them (or 0) |
| PnmCrypt.MaxLow16Prefix | pnm/pnm.c:382-385 | one more sample updates the maximum exactly as the loop's `if` does |
| PnmCrypt.EncryptImage | pnm/pnm.c:360-394 | encryption keeps magic number and size, XORs every sample with its key, and for P2/P3 sets the maximum value to MaxLow16 of the encrypted samples: a bound on every sample's low 16 bits that is 0 or attained by one of them (P1 keeps it) |
| PnmCrypt.EncryptCellStep | pnm/pnm.c:377-378 | one turn of the loop advances the register by 32 steps and encrypts exactly sample k |
| PnmCrypt.EncryptPixelsTwice | pnm/pnm.c:360-394 | encrypting twice from the same register gives the samples back |
| PnmCrypt.DecryptRestores | pnm/pnm.c:360-394 | re-encryption restores the samples, restores a P1 image entirely, and gives P2/P3 the largest low 16 bits of an original sample as maximum value |
| PnmRead.SkipData | pnm/pnm.c:49-97 | go_to_next_data stops, inside the text, at a printing character that is not '#', or fails |
| PnmRead.SkipComment | pnm/pnm.c:71-90 | a comment is skipped through its line break and skipping starts over |
| PnmRead.SkipDataSuffix | pnm/pnm.c:49-97 | the skipper leaves the input at a suffix: what it passed, then where it stopped |
| PnmRead.SkipDataNewlines | pnm/pnm.c:61-64 | the line counter rises by exactly the number of '\n' and '\r' characters passed, comments included |
| PnmRead.SkipBlanks | pnm/pnm.c:55-69 | non-printing characters are passed, counting their line breaks, up to the next datum |
| PnmRead.SkipCommentThrough | pnm/pnm.c:73-86 | inside a comment, skipping resumes after the line break ('\n' or '\r') with one more line counted |
| PnmRead.SkipCommentLine | pnm/pnm.c:71-90 | blanks then a comment line ending in '\n' or '\r' skip like blanks plus one line break |
| PnmRead.SkipBlanksEnd | pnm/pnm.c:55-60 | input that holds only blanks up to its end makes the skipper fail |
| PnmRead.SkipCommentUnended | pnm/pnm.c:76-79 | a comment the input ends in makes the skipper fail |
| PnmRead.ReadSample | pnm/pnm.c:134-143 | reading a sample consumes input |
| PnmRead.SampleAfterComment | pnm/pnm.c:130-145 | a comment line (ending in '\n' or '\r') where a sample is expected does not change the sample read, so comments between rows are accepted |
| PnmRead.ReadMany | pnm/pnm.c:132-144 | reading n values gives exactly n values |
| PnmRead.ReadManyRows | pnm/pnm.c:130-145 | reading lines rows gives exactly lines × rowLength values |
| PnmRead.ReadManySnoc | pnm/pnm.c:139 | reading one more value after k values extends the row by it |
| PnmRead.ReadManyStops | pnm/pnm.c:134-138 | once a value cannot be read, no longer row can be |
| PnmRead.ReadManyAppend | pnm/pnm.c:130-145 | reading a + b values is reading a, then b more from where they stopped |
| PnmRead.ReadManyRowsFlat | pnm/pnm.c:130-145 | reading row after row is reading all the cells in turn |
| PnmRead.ReadRowsFlat | pnm/pnm.c:130-145 | store_pixels reads its matrix as its cells in turn |
| PnmRead.MagicOf | pnm/pnm.c:209-248 | the string read is a known magic number exactly when it is "P1", "P2" or "P3" |
| PnmRead.LoadPixels | pnm/pnm.c:286-293 | a loaded matrix is well formed and non-empty; a P1 image has maximum value 0; a failure is −3 |
| PnmRead.LoadBody | pnm/pnm.c:250-293 | after the magic number, a loaded image is well formed and non-empty; a failure is −3 |
| PnmRead.LoadText | pnm/pnm.c:182-293 | a loaded image's magic number matches the extension; a failure is −2 or −3, and −2 exactly when line 1 holds a known magic number that is not the extension's |
| PnmRead.LoadTextMagic | pnm/pnm.c:200-248 | a two-character magic number at the start: unknown gives −3, the wrong extension −2, otherwise loading goes on right after it |
| PnmRead.LeadingCommentFails | pnm/pnm.c:193-199 | a comment line (ending in '\n' or '\r') before the magic number gives −3 |
| PnmRead.OffFirstLine | pnm/pnm.c:186-199 | no datum, or a first datum after line 1, gives −3 |
| PnmRead.CommentInSizeFails | pnm/pnm.c:258-264 | a comment between the width and the height gives −3 |
| PnmRead.MissingSampleFails | pnm/pnm.c:134-138 | a sample that cannot be read before the matrix is full gives −3 |
| PnmRead.LoadPnm | pnm/pnm.c:150-298 | a loaded image is well formed and non-empty, and its magic number matches the name's extension; a failure is −1, −2 or −3, and −2 exactly for a name without a dot or an opened file whose magic number is not the extension's |
| PnmWrite.WritePnm | pnm/pnm.c:300-358 | an invalid name gives −1; a valid name on a file that cannot be opened gives −2; the text is written exactly when both succeed |
| PnmWrite.RowTextSnoc | pnm/pnm.c:348-351 | printing one more sample appends its low 16 bits and a space |
| PnmWrite.RowsTextSnoc | pnm/pnm.c:346-353 | printing one more row appends it and a line break |
| PnmWrite.RowsTextPrefix | pnm/pnm.c:346-353 | the rows of a longer prefix are the rows of the shorter one plus the next row |
| PnmWrite.RowTextNoNewline | pnm/pnm.c:350 | a printed row holds no line break |
| PnmRoundTrip.ReadDecimal | pnm/pnm.c:134-143 | a printed number, after blanks and before a non-digit, reads back as itself |
| PnmRoundTrip.ReadRowText | pnm/pnm.c:348-351 | a printed row reads back as its samples' low 16 bits |
| PnmRoundTrip.ReadRowsText | pnm/pnm.c:346-353 | printed rows read back as all their samples' low 16 bits |
| PnmRoundTrip.PixelsReadBack | pnm/pnm.c:286-293 | the written rows load as the samples' low 16 bits |
| PnmRoundTrip.SizeReadsBack | pnm/pnm.c:332 | the written size line is read back on the next line as the width and height |
| PnmRoundTrip.MaxReadsBack | pnm/pnm.c:337 | the written maximum value (below 2^31) reads back |
| PnmRoundTrip.BodyReadsBack | pnm/pnm.c:250-293 | everything written after the magic number loads back as the image with low-16-bit samples |
| PnmRoundTrip.MagicReadsBack | pnm/pnm.c:318-329 | the written magic number is read whole and the load goes on after it |
| PnmRoundTrip.MagicOfText | pnm/pnm.c:209-241 | the two characters written for a magic number name that magic number |
| PnmRoundTrip.WriteThenLoad | pnm/pnm.c:300-358 | a written file loads back with the same magic number, size and maximum value, and the samples' low 16 bits |
| PnmExamples.OpenedAs | pnm/pnm.c:154-169 | with a one-dot name, load_pnm goes on with the content, or gives −1 when the file cannot be opened |
| PnmExamples.LeadingNewline | pnm/pnm.c:193-199 | a magic number on line 2 gives −3 |
| PnmExamples.MagicMismatch | tests/pnm_tests.c:56 | a P3 file with a .pgm name gives −2 |
| PnmExamples.UnknownMagic | tests/pnm_tests.c:57 | an unknown magic number gives −3 |
| PnmExamples.MagicTakesTwo | pnm/pnm.c:200 | "P13 1" reads as magic P1, width 3, height 1 |
| PnmExamples.CommentBeforeSample | tests/pnm_tests.c:63 | a comment line before a sample changes nothing |
| PnmExamples.CommentBeforeSampleCrlf | pnm/pnm.c:80-84 | with CRLF line breaks the comment ends at '\r' and the sample after it is read the same |
| PnmExamples.MissingSample | tests/pnm_tests.c:59 | a matrix with a sample missing gives −3 |
| PnmExamples.LeadingZero | pnm/pnm.c:139 | `%u` reads "01" as 1 |
| PnmExamples.BitsAsOneSample | pnm/pnm.c:139 | the P1 bits "01" without white space read as one sample |
| PnmExamples.BitsRunTogether | pnm/pnm.c:130-145 | a two-column P1 row written "01" gives −3 |
| PnmExamples.WriteRejectsPath | tests/pnm_tests.c:72-73 | for any well-formed image, writing to "../badPath.ppm" is refused with −1 and writing to "goodPath.ppm" succeeds |
| PnmExamples.RowExample | pnm/pnm.c:350 | the samples 7 and 70000 print as "7 4464 " |
| PnmFile.GoToNextData | pnm/pnm.c:49-97 | go_to_next_data succeeds exactly when the skipper does, leaves the input where it stops and adds the line breaks it passed |
| PnmFile.ReadToGraph | pnm/pnm.c:55-69 | the first loop reads up to a printing character; skipping from there is the rest of the skip |
| PnmFile.ReadThroughNewline | pnm/pnm.c:73-85 | the comment loop reads through the next line break, which it counts |
| PnmFile.ReadNextSample | pnm/pnm.c:134-143 | one turn of store_pixels' inner loop reads exactly the next sample |
| PnmFile.StorePixels | pnm/pnm.c:113-148 | store_pixels fills a fresh lines × rowLength matrix with the samples read, and succeeds exactly when all of them can be read |
| PnmFile.StoreRows | pnm/pnm.c:130-145 | the outer loop stores the samples read in turn and succeeds exactly when all can be read |
| PnmFile.CreateMatrix | utils/utils.c:24-49 | create_matrix gives a fresh matrix of lines × rowLength cells |
| PnmFile.StoreRow | pnm/pnm.c:132-144 | the inner loop stores the next n samples; on a failure the whole matrix cannot be read |
| PnmFile.StoreStep | pnm/pnm.c:139 | storing the sample read after the first k stores the first k + 1 |
| PnmFile.MaxStep | pnm/pnm.c:380-386 | the loop's update of maxValue keeps the running maximum |
| PnmFile.EncryptTwice | pnm/pnm.c:360-394 | encrypting an image with an LFSR from a seed, then again with a fresh LFSR from the same seed, restores its samples; it fails exactly on an invalid seed |
| PnmFile.Pnm.Load | pnm/pnm.c:150-298 | load_pnm returns the code of LoadPnm, and on success a fresh image object holding LoadPnm's image |
| PnmFile.Pnm.LoadOpened | pnm/pnm.c:182-248 | once the file is open, the code and image are those of LoadText |
| PnmFile.Pnm.CheckMagic | pnm/pnm.c:208-248 | an unknown magic number gives −3, a known one with another extension −2, otherwise 0 and that magic number |
| PnmFile.Pnm.LoadAfterMagic | pnm/pnm.c:250-293 | after the magic number, the code and image are those of LoadBody |
| PnmFile.Pnm.Write | pnm/pnm.c:300-358 | write_pnm returns what WritePnm says of the image held |
| PnmFile.Pnm.PrintHeader | pnm/pnm.c:317-338 | the header printed is the magic line, the size line and, for P2/P3, the maximum value line |
| PnmFile.Pnm.PrintRows | pnm/pnm.c:340-353 | the loops print every row followed by a line break |
| PnmFile.Pnm.PrintRow | pnm/pnm.c:348-351 | the inner loop prints each sample's low 16 bits and a space |
| PnmFile.Pnm.Encrypt | pnm/pnm.c:360-394 | pnm_file_encryption turns the image into EncryptImage of it and runs the LFSR 32 steps per sample |
| PnmFile.Pnm.EncryptSamples | pnm/pnm.c:372-388 | the loops encrypt every sample in place and return the largest low 16 bits of an encrypted sample |
| PnmFile.Pnm.EncryptRow | pnm/pnm.c:374-387 | the inner loop encrypts the samples of one row and keeps the running maximum |
| PnmFile.Pnm.EncryptCell | pnm/pnm.c:377-378 | one sample is XOR-ed with generation(lfsr, 32) and the register moves 32 steps |
| Utils.Base64AlphabetLiteral | utils/utils.c:22 | the alphabet is A–Z, a–z, 0–9, '+', '/' |
| Utils.IndexOf | utils/utils.c:76 | strchr finds the first occurrence, or none exactly when the character is absent |
| Utils.IndexInAlphabet | utils/utils.c:76-83 | a character's position in the alphabet is its value by ranges |
| Utils.InAlphabetValue | utils/utils.c:76-81 | a character is accepted exactly when it is in the alphabet |
| Utils.ToBinaryValue | utils/utils.c:93-104 | n binary digits are written, and they read back as the value mod 2^n |
| Utils.Base64ToBinary | utils/utils.c:63-110 | the conversion succeeds exactly when every character is in the alphabet, and is six digits per character |
| Utils.Base64ToBinarySnoc | utils/utils.c:105 | one more character appends its six-digit code |
| Utils.Base64Blocks | utils/utils.c:74-107 | the result is binary, and block j is the code of character j |
| Utils.Base64StringToBinaryString | utils/utils.c:63-110 | the conversion's loops compute Base64ToBinary |
| Utils.Base64ToBinaryRejects | utils/utils.c:76-81 | one character outside the alphabet makes the conversion fail |
| Utils.Base64ToBinaryNext | utils/utils.c:105 | the conversion of i + 1 characters extends that of i by the next code |
| Utils.CharacterBits | utils/utils.c:93-104 | the inner loop fills the six digits of a value, from the last |
| Utils.SixBitsValue | utils/utils.c:93-104 | six digits hold any value below 64 exactly |
| Utils.CodeValue | utils/utils.c:83-104 | a character's code reads back as its value |
| Utils.Base64BlockValue | utils/utils.c:74-107 | each block of the result reads back as its character's value |
| Utils.FileExtension | utils/utils.c:112-123 | there is an extension exactly when the name has a '.'; it is the dot-free text after the last '.' |
| Utils.FileExtensionOfSplit | utils/utils.c:116-122 | a name ending in a '.' and dot-free text has that text as extension |
| Utils.CheckFileName | utils/utils.c:125-157 | check_file_name accepts exactly the names with at most one '.' and none of the forbidden characters slash, backslash, colon, star, question mark, double quote, angle brackets and vertical bar |
| UtilsExamples.PasswordExample | tests/utils_tests.c:56-61 | "MaitreGims" converts to 001100011010100010101101101011011110000110100010100110101100 |
| UtilsExamples.InvalidPasswordExample | tests/utils_tests.c:64-66 | "dasjn0938*&()" is refused |
| UtilsExamples.FileExtensionExamples | tests/utils_tests.c:69-77 | "img.pgm" has extension "pgm"; "img" has none |
| UtilsExamples.ValidFileNameExample | tests/utils_tests.c:81-82 | "img.pgm" is accepted |
| UtilsExamples.InvalidFileNameExamples | tests/utils_tests.c:84-88 | "img.pg.m", "img*.pgm" and "../badPath.ppm" are refused (the last is the name tests/pnm_tests.c:72 writes to) |

## Left out

- I/O is modelled as text. A file being read is the text still unread. The output of `write_pnm` is the text it prints. Whether `fopen` succeeds is a parameter: `content: Option<string>` for loading and `writable: bool` for writing. The console messages are not modelled.
- `malloc` failures are not modelled (in create_lfsr, create_matrix, base64_string_to_binary_string and load_pnm). The model cannot run out of memory.
- PnmFile.StorePixels: store_pixels returns −1 when create_matrix fails, and load_pnm takes that nonzero value for success. This path needs a failed `malloc`, so it is left out.
- The `free_*` functions, memory leaks, the command-line program (`program/crypt_lfsr_main.c`) and the unit-test programs under `tests/` are not modelled. The tests' file contents are not part of this model: their cases are stated on small texts in `PnmExamples`.
- The pixel matrix is one flat array, row after row, not an array of separately allocated rows. `CreateMatrix` gives it `lines × rowLength` cells. Its assertion that both are positive becomes the `Aborted` outcome of `LoadPnm`.
- PnmRead.SkipData: a byte from 0x80 up is read into a signed `char`, compares below zero and is taken for the end of the file. The model treats any character from 0x80 up that way.
- CFormat.ScanUnsigned: `%u` also accepts a leading sign, and what it stores for a number beyond 2^32 − 1 is left undefined by C. The model accepts digits only and reduces the value mod 2^32.
- PnmRead.LoadPnm: a P1 image's maximum value is never set by load_pnm. The model gives it 0.
- LfsrEngine.Lfsr.Generation: requires k < 2^32, the range of its `unsigned int` parameter.
- LfsrEngine.Lfsr.ToString: returns the characters only. The C buffer lacks a terminating NUL, which is not modelled.
- Utils.Base64StringToBinaryString: the C result buffer is not initialised before the first `strcat`. The model starts from the empty string.
- PnmRoundTrip.WriteThenLoad: requires a non-empty matrix and a maximum value below 2^31. A larger maximum value prints negative with `%d`; it does not read back in this model, whose `%u` accepts no sign (see CFormat.ScanUnsigned). An empty matrix aborts in create_matrix.
- PnmWrite.RowsText: on a sample sequence shorter than the matrix, which no well-formed image has, it prints whatever samples there are.
- The line counter is modelled through the header, where it decides the "magic number on line 1" check. After that it only appears in error messages, so nothing is stated about it.
- PnmFile.Pnm.EncryptRow: computes the running maximum for every magic number. Only P2 and P3 store it, as the C code does.
