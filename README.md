# bro: command-line front end of the Brotli driver, in Dafny

`bro` is the command-line program that ships with the Brotli compressor. It
parses its arguments, then compresses or decompresses a file (or a standard
stream) a given number of times. The codec itself lives in other files and is
not modelled. This project models the driver:

- **`QualityParser`** (`quality.dfy`) is the small decimal reader `ParseQuality`.
  It reads a C string of one or two ASCII digits. It writes the value through
  its out-pointer even when it then refuses the token.
- **`ArgParser`** (`argparser.dfy`) is the argument scanner `ParseArgv`. The
  method `ParseArgv` mirrors the driver's loop: an index over `argv` that steps
  one extra position after a value flag, and a single usage-error exit. It is
  proved equal to a two-layer specification:
  - `Lex` splits the tokens into options. A switch is one token. A value flag
    is its token plus the next token, whatever that token contains.
  - `Interpret` turns the options into a `Config`. `--force`, `--verbose`,
    `--input` and `--output` may each appear at most once. A numeric value must
    be one or two digits. The last occurrence of a numeric flag wins.
  - `Scan` is the same decision made one option at a time, as the loop makes
    it. `ScanMatchesInterpret` proves the two readings agree.
- **`Streams`** (`streams.dfy`) holds the decisions of `OpenInputFile` and
  `OpenOutputFile`. Without a path they return standard input or output. The file system is a `Disk`: the paths that exist, and the
  paths opened for writing, which have lost their old contents.
- **`Driver`** (`driver.dfy`) is `main`. It parses with the defaults 11
  (quality), 22 (window) and 0 (mode). It then runs the loop `repeat` times,
  opening the streams again in each iteration and closing them at its end. It
  stops at the first failure with exit status 1. A standard stream is not
  reopened: the first iteration closes it, and a later iteration would use the
  closed stream. C leaves that undefined, so the model stops the run there with
  the fault `StandardStreamReused`.
  The outcomes of `fopen`, `fclose` and the codec come from an `Oracle`, one
  answer per iteration. `RunLoop` is the loop and `Run` is its specification.
- **`Wrappers`** (`wrappers.dfy`) holds the `Option` type shared by the modules.
- **`CStrings`** (`cstrings.dfy`) models C strings. A token is a `string` in
  which a NUL, or the end of the sequence, ends the C string.

Some behaviour of the code differs from its usage text or is easy to miss. The
model follows the code:

- Quality and window are not range-checked. The usage text gives 0..11 and
  16..24, but any one- or two-digit number is accepted.
- `--repeat 0` is accepted. The run then opens nothing and exits with status 0.
- Without `--force`, a run that names an output file and asks for two or more
  repetitions never completes. The first iteration creates the file, so the
  run stops in the second iteration at the latest, there because the input
  cannot be opened or because the output exists (`Driver.RepeatWithoutForceStops`).
- A run of two or more repetitions on standard input or standard output
  reaches a closed stream in its second iteration (`Driver.StandardStreamOnlyOnce`).
- Repeating `-d`/`--decompress`/`--uncompress` is allowed. Repeating an input
  or output flag is a usage error, like repeating `--force` or `--verbose`.

## Model

| member | source | states |
|---|---|---|
| `QualityParser.ParseQuality` | tools/bro.cc:31-41 | A token whose first character is not a digit is refused and leaves the caller's integer unchanged; an accepted value lies in 0..99 |
| `QualityParser.ParseQualityAcceptsExactly` | tools/bro.cc:31-41 | The reader accepts exactly the C strings of one or two ASCII digits, and then stores their decimal value |
| `QualityParser.ParseQualityWritesLeadingDigits` | tools/bro.cc:32-38 | A token starting with a digit overwrites the caller's integer with the value of its leading digits (at most two), even when it is then refused ("1x" gives 1, "12x" gives 12) |
| `QualityParser.ParseQualityReadsDecimal` | tools/bro.cc:31-41 | Every number 0..99, written without a leading zero, is read back as itself |
| `QualityParser.ParseQualityOnlyDecimals` | tools/bro.cc:31-41 | An accepted token is the canonical spelling of its value, or that spelling after a single leading zero |
| `QualityParser.Decimal` | tools/bro.cc:31-41 | The canonical spelling of a number below one hundred is one or two digits, has no NUL, and denotes that number |
| `ArgParser.FlagNamedSpellings` | tools/bro.cc:64-131 | The contract of `FlagNamed`, the chain of string comparisons: a token names a flag exactly when its C string is one of that flag's spellings (long name, short name, and `--uncompress`, `--in`, `--out`) |
| `ArgParser.FlagNamedSpelling` | tools/bro.cc:64-131 | Each spelling, passed as a whole token, names its flag |
| `ArgParser.Spellings` | tools/bro.cc:64-131 | Every flag is spelled by its long and by its short name |
| `ArgParser.Lex` | tools/bro.cc:62-133 | The options the lexer reads cover exactly the remaining tokens (one per switch, two per value flag), and a switch carries no value |
| `ArgParser.LastValue` | tools/bro.cc:95-130 | A flag has a last value exactly when it occurs, and that value belongs to an occurrence after which the flag does not occur again |
| `ArgParser.NumberOr` | tools/bro.cc:103-130 | A numeric setting holds 0..99 when its flag occurs and keeps the caller's value when it does not |
| `ArgParser.LexStep` | tools/bro.cc:62-133 | A recognised flag is one option; a value flag takes the next token as its value and scanning resumes two positions later |
| `ArgParser.LexStops` | tools/bro.cc:84-133 | An unrecognised token, or a value flag in the last position, stops the lexer |
| `ArgParser.LexRenderThen` | tools/bro.cc:62-133 | Lexing the tokens that spell a list of options, whatever tokens follow, reads back that list first and then continues after its last token; value tokens are taken whatever they contain |
| `ArgParser.LexRender` | tools/bro.cc:62-133 | Lexing the tokens that spell a list of options gives back exactly that list |
| `ArgParser.ParseRendered` | tools/bro.cc:43-156 | A command line that spells a list of options is accepted or refused exactly as the options are |
| `ArgParser.ScanMatchesInterpret` | tools/bro.cc:62-133 | Reading the options left to right and stopping at the first refused one agrees with the declarative reading (once-only flags at most once, well-formed numbers, last numeric value wins) |
| `ArgParser.RejectedSnoc` | tools/bro.cc:64-130 | One more option makes a refused command line exactly when it repeats a once-only flag already set or carries a malformed number |
| `ArgParser.SummarySnoc` | tools/bro.cc:64-130 | One more accepted option changes the configuration exactly as the matching branch of the loop does |
| `ArgParser.RejectedExtends` | tools/bro.cc:133-155 | Once refused, a command line stays refused whatever follows |
| `ArgParser.ScanRefusedExtends` | tools/bro.cc:133-155 | Once the scan has refused an option it never recovers |
| `ArgParser.AcceptedConfig` | tools/bro.cc:53-61 | An accepted command line sets force, verbose and the paths exactly when their flag appears once; decompress follows the program name or a decompress flag; quality, window and mode keep the caller's value unless their flag appears; repeat defaults to 1 |
| `ArgParser.InvokedAsUnbroSuffix` | tools/bro.cc:58-61 | A program name ending in "unbro" selects decompression, and only a name whose C string ends in "unbro" does |
| `ArgParser.OnceOnlyFlagTwiceRefused` | tools/bro.cc:64-102 | Two occurrences of `--force`, `--verbose`, `--input` or `--output`, in any spellings, are a usage error |
| `ArgParser.ValueFlagTakesNextToken` | tools/bro.cc:95-102 | On a command line of just an output flag and one more token, that token is the output path even when it spells a flag |
| `ArgParser.TrailingValueFlagRefused` | tools/bro.cc:84-133 | A value flag in the last position, after any options, is a usage error |
| `ArgParser.UnknownFlagRefused` | tools/bro.cc:133 | A token that spells no flag, in a position where a flag is expected (after any options), is a usage error whatever follows it |
| `ArgParser.RepeatedDecompressAccepted` | tools/bro.cc:71-75 | A command line of just two decompress flags, in any spellings, is accepted and sets decompression |
| `ArgParser.LastQualityWins` | tools/bro.cc:103-109 | On a command line of just two quality flags with well-formed values, the second value wins |
| `ArgParser.ZeroRepeatAccepted` | tools/bro.cc:110-116 | A command line of just a repeat flag with the value "0" is accepted and gives zero repetitions |
| `ArgParser.MalformedNumberRefused` | tools/bro.cc:103-130 | A command line of just a numeric flag whose value is not one or two digits is a usage error |
| `ArgParser.TakeOption` | tools/bro.cc:64-131 | One option is refused exactly when it repeats a once-only flag or carries a malformed number; otherwise the configuration is updated as the declarative reading says |
| `ArgParser.ParseArgv` | tools/bro.cc:43-156 | The driver's index-driven scan returns exactly the two-layer specification: a usage error, or the configuration the options describe |
| `Streams.OpenInputFile` | tools/bro.cc:158-169 | Standard input is always returned; a named input opens exactly when it exists and `fopen` succeeds; opening changes nothing on disk, and a failure is an input-open failure |
| `Streams.OpenOutputFile` | tools/bro.cc:171-189 | Standard output is always returned with the disk unchanged; a named output opens exactly when force is on or the path does not exist, and `fopen` succeeds; it is refused as existing exactly when force is off and the path exists; a successful open creates and truncates only the named path |
| `Streams.InputSurvivesOutputOpen` | tools/bro.cc:158-189 | Opening the output after the input never makes that input unopenable |
| `Streams.Unlink` | tools/bro.cc:232-236 | Unlinking removes only the output path, and nothing for standard output |
| `Driver.Iteration` | tools/bro.cc:216-245 | The codec runs only after the input and the output are open and no closed standard stream is reused; an iteration ends without a fault exactly when the codec and both closes succeed; a compression failure happens only when compressing, a decoding failure only when decompressing; an iteration refused at an open leaves the disk unchanged; otherwise the output path has been created and truncated, and removed again after a compression failure, and no other path changes |
| `Driver.RunFrom` | tools/bro.cc:215-246 | A completed run has run the codec once per iteration; a failed run failed inside the loop's range, after one codec call per earlier iteration plus one when the codec was reached |
| `Driver.RunLoop` | tools/bro.cc:215-246 | The loop returns exactly the outcome of the run specification |
| `Driver.Execute` | tools/bro.cc:202-246 | A usage error exits with status 1 and touches nothing; otherwise the exit status is 0 exactly when every iteration completed |
| `Driver.RunTouchesOnlyOutput` | tools/bro.cc:171-236 | No path other than the output is created, truncated or removed by a run |
| `Driver.ForcedRunNeverRefusesOutput` | tools/bro.cc:176-182 | With force, a run never stops because the output exists |
| `Driver.FailedCompressionUnlinks` | tools/bro.cc:219-236 | A compression failure happens only when compressing and leaves no output file; a decoding failure happens only when decompressing and leaves the output in place |
| `Driver.ExistingOutputRefused` | tools/bro.cc:176-182 | Without force, an existing output stops the first iteration before the codec runs and with the file system unchanged |
| `Driver.ZeroRepeatCompletes` | tools/bro.cc:215 | With no iterations to do, nothing is opened and the run completes |
| `Driver.RepeatWithoutForceStops` | tools/bro.cc:176-189 | Without force and with an output path, a run of two or more iterations fails by the second iteration at the latest, there because of the input or because the output exists |
| `Driver.CooperativeRunCompletes` | tools/bro.cc:215-246 | When every open, close and codec call succeeds, the input exists, the output may be written (forced, standard output, or a path that does not exist yet in the last iteration) and no standard stream is needed after the first iteration, the run completes with exactly `repeat` codec calls |
| `Driver.StandardStreamOnlyOnce` | tools/bro.cc:158-245 | A run of two or more iterations on standard input or standard output fails by the second iteration at the latest |

## Left out

- The Brotli codec (`BrotliCompress`, `BrotliDecompress` and their stream adapters) is not part of this model. Its result is the `codecSucceeds` answer of the `Oracle`.
- Real file I/O is reduced to decisions. `fopen` and `fclose` outcomes come from the `Oracle`, and the file system is the `Disk` record. `setmode`, `perror` and the text of error messages are not modelled.
- Opening an input path also requires the path to exist in the `Disk`. An `fopen` for reading cannot succeed otherwise.
- `unlink` on a missing output path (standard output) is modelled as doing nothing.
- Reusing a standard stream after the first iteration has closed it is undefined in C. The model does not say what happens then: it stops the run with `StandardStreamReused` before the codec runs, a fault the C code never reports.
- `FileSize` and the verbose report (clock time, floating-point ratios and MiB/s) are not modelled. The verbose flag is parsed and kept in the configuration only.
- The usage message text and process termination become the `UsageError` result and exit status 1.
- `argv` must hold at least the program name. With an empty `argv` the code dereferences a null `argv[0]`.
- The C `int` counters do not overflow in the model. Parsed numbers are at most 99, so no counter can overflow.
- The parser's out-pointers become the fields of a `Config` value. `TakeOption` returns the updated value instead of writing through the pointers.
