# dd_scanf — a verified model of a small scanf engine

This project models `dd_scanf.h` of NextGenScan, a header-only C++ scanf.
The modelled core is `dd_vsscanf`, which walks an input buffer and a format
string together. Blanks (`'\n'`, `'\r'`, `'\t'`, `' '`) are skipped on either
side. A literal format character must equal the input character. Each `%`
directive passes through three stages:

- `dd_get_replacement` finds where the directive's specifier ends.
- `dd_parse_replacement` turns the specifier into a `replacement` record. The
  record holds a state byte (escape, ignore, sign, precision and negation bits
  plus a two-bit length tier), a `size_t` width, a type, and a 128-byte buffer
  `chset` for a bracket class such as `[^a-z0-9]`.
- `dd_handle_replacement` converts the input at the cursor with
  `std::from_chars`, or copies characters, or reads a boolean. It stores the
  result through the argument pointer unless the directive has `*`.

Modules, one per stage:

- `Text`: `IsEmpty`, and reading the implicit terminator.
- `Results`: `Option`, `Result` and the error kinds.
- `Directive`: the record and its bit layout.
- `Extent`: `dd_get_replacement`.
- `ClassCompiler`: the bracket-class loop inside `dd_parse_replacement`.
- `SpecParser`: the rest of `dd_parse_replacement`.
- `CharConv`: the integer `std::from_chars` that the handler calls, following
  section 20.19.3 of ISO/IEC 14882:2020.
- `Convert`: `dd_handle_replacement`.
- `Driver`: `dd_vsscanf`.
- `DriverProperties`: properties of whole scans.

The model's shape:

- Buffers are `seq<char>` with `nat` cursors. `At(s, i)` reads `'\0'` at or
  beyond the end, like the C terminator.
- Each C function that loops or writes through pointers is a `method`.
  - Its `ensures` equates its result with a pure function.
  - `ParseReplacement` and `CompileClass` write the class into a 128-element
    `array<char>` through a moving index, as the source does.
  - `GetReplacement` keeps the source's two flags.
  - `CopyString` keeps both of the source's copy loops.
  - `Vsscanf` keeps the source's loop.
- What the source promises is proved as lemmas about those pure functions.
- Where the source would read or write out of bounds, or read an
  indeterminate value, the model returns an error (`ScanError`) instead. The
  one exception is the missing return at the end of `dd_vsscanf`, described
  under "Left out".
- The argument pointers become a list of `Write`s, in the order the
  arguments are consumed.

The record's `width` is a `size_t`, so the model reduces it modulo 2^64.
The integer destinations use the LP64 widths: `int` 32, `long long` 64,
`short` 16 and `signed char` 8 bits.

C's scanf (section 7.21.6.2 of ISO/IEC 9899:2018) treats `'^'` as negation
only when it is the first character of a scanset. This code sets the negation
bit at the first `'^'` anywhere in the class, and each later `'^'` becomes a
member of the class. The model follows the code.

## Model

| member | source | states |
|---|---|---|
| Text.IsEmpty | dd_scanf.h:183-190 | Blank exactly for newline, carriage return, tab and space; the terminator is never blank |
| CharConv.DigitRun | dd_scanf.h:196-198 | The run from i is made of digits of the base, stays inside [i, last) and the input, and stops at last or at a non-digit |
| CharConv.MatchEnd | dd_scanf.h:196-198 | The matched pattern is empty or ends inside (first, last] and inside the input |
| CharConv.FromChars | dd_scanf.h:196-198 | When nothing matches, the pointer stays at first and no value is produced; otherwise the pointer stays inside the range |
| CharConv.FromCharsMatches | dd_scanf.h:196-198 | from_chars consumes an optional '-' (signed targets only) and then a maximal run of digits. The pointer stays at first exactly when no digit follows. A value is produced exactly when the matched number lies in [lo, hi], and it is that number |
| CharConv.Render | dd_scanf.h:196-198 | The rendering of n is a non-empty string of digits of the base whose value is n |
| CharConv.NumberText | dd_scanf.h:196-198 | The text of a signed number: '-' first when negative, then digits; it denotes exactly that number |
| CharConv.ReadsText | dd_scanf.h:196-198 | A number text within the width that fills the width or is followed by a non-digit is consumed whole. Its value is produced exactly when it lies in range |
| CharConv.FromCharsRoundTrip | dd_scanf.h:196-198 | from_chars reads back the text of any in-range number that fits the width and either fills it or is followed by a non-digit |
| ClassCompiler.ClassStep | dd_scanf.h:141-174 | One class character fails only when it is a 'z', 'Z' or '9' with nothing written before it, and then with InvalidFormatString. A '^' sets the negation bit, and the bit is never cleared |
| ClassCompiler.RunKeeps | dd_scanf.h:155-160 | Completing a run keeps every character written before it and adds the character that closes it |
| ClassCompiler.Run | dd_scanf.h:157-159 | The run lo..hi holds each character once, in increasing order, and nothing else |
| ClassCompiler.ClassFrom | dd_scanf.h:140-175 | A class that compiles ends at a ']' of the format and writes at most 128 characters |
| ClassCompiler.ClassCloseIsFirst | dd_scanf.h:140 | The class ends at the first ']' after the '[' |
| ClassCompiler.WriteRun | dd_scanf.h:155-168 | Writes the run after the chset contents, or fails when the 128-byte buffer would overflow |
| ClassCompiler.Append | dd_scanf.h:173 | Writes one character after the chset contents, or fails when the buffer is full |
| ClassCompiler.CompileClassChar | dd_scanf.h:141-174 | One pass of the class switch leaves the buffer and state byte that ClassStep describes |
| ClassCompiler.CompileClass | dd_scanf.h:139-176 | The class loop over the array leaves the buffer, state byte and ']' position that ClassFrom describes, or its error |
| ClassCompiler.ClassNegation | dd_scanf.h:142-147 | The negation bit is set exactly when a '^' occurs in the class; no other state bit changes |
| ClassCompiler.ClassStepKeeps | dd_scanf.h:141-174 | One class character keeps what was written and adds itself. A lone '-' and the '^' that sets negation add nothing. A '-' followed by a '-' adds '-' |
| ClassCompiler.ClassStepSound | dd_scanf.h:141-174 | One class character adds only itself, or the run a 'z', 'Z' or '9' closes |
| ClassCompiler.ClassMembersKept | dd_scanf.h:140-175 | The compiled class keeps the earlier contents and every class character, except lone '-' and the negating '^' |
| ClassCompiler.ClassMembersSound | dd_scanf.h:140-175 | Every member of the compiled class comes from the earlier contents, the class text, or the run of a 'z', 'Z' or '9' in it |
| ClassCompiler.ClassVerbatim | dd_scanf.h:172-173 | A class of ordinary characters compiles to exactly those characters, in order |
| ClassCompiler.RunShorthand | dd_scanf.h:153-171 | "a-z", "A-Z" and "0-9", or the same without '-', write the whole inclusive run |
| ClassCompiler.ClassIgnoresOtherBits | dd_scanf.h:142-147 | The compiled class and its end depend only on the incoming negation bit, not on the other state bits |
| ClassCompiler.ClassStepIgnoresOtherBits | dd_scanf.h:141-174 | One class character's effect depends only on the incoming negation bit |
| Extent.ExtentFrom | dd_scanf.h:353-381 | The extent found lies between the scan start and the end of the format |
| Extent.GetReplacementSpec | dd_scanf.h:348-351 | The specifier ends after the '%' and no later than the end of the format |
| Extent.GetReplacement | dd_scanf.h:348-382 | The two-flag loop returns what GetReplacementSpec describes |
| Extent.InsideClass | dd_scanf.h:355-364 | Inside a class the scan stops just after the first ']' |
| Extent.UnterminatedClass | dd_scanf.h:353-381 | A class with no ']' has no end: the scan would run past the format |
| Extent.PlainExtent | dd_scanf.h:365-374 | Outside a class, the scan passes over flag, width and type characters without stopping |
| Extent.GetReplacementEnds | dd_scanf.h:348-382 | "%%" ends two characters on. Otherwise the specifier ends at the first character outside the alphabet, unless that is '['. With '[', it ends just after the class's first ']', or nowhere if there is none |
| SpecParser.SwitchChar | dd_scanf.h:70-135 | One pass of the switch for a flag, width or type character updates state, width and type as StateAfter, WidthAfter and KindAfter describe |
| SpecParser.ParseFrom | dd_scanf.h:69-181 | A successful parse returns a position inside the format |
| SpecParser.ParseFromStops | dd_scanf.h:69-181 | The parse stops at the end, or at the first character the switch does not accept |
| SpecParser.ParseSpec | dd_scanf.h:59-67 | A specifier starting with '%' gives exactly the escape bit, width 0, no class, and returns the end |
| SpecParser.ParseReplacement | dd_scanf.h:59-182 | The parser loop, with the class written into the 128-byte array, returns what ParseSpec describes |
| SpecParser.ParsePass | dd_scanf.h:69-180 | One pass of the parser loop fails, stops, or moves on as ParseFrom's next step, keeping the array equal to the class contents |
| SpecParser.CharCase | dd_scanf.h:70-135 | A flag, width or type character moves the parse one position on, as ParseFrom does |
| SpecParser.ClassCase | dd_scanf.h:136-176 | The '[' case compiles the class into the array and continues after the ']', or fails with the class's error |
| SpecParser.ParseFromClass | dd_scanf.h:136-176 | A class that compiles sets the type to range and the class contents, and parsing goes on after its ']' |
| SpecParser.ParseFromClassFails | dd_scanf.h:136-176 | A class that does not compile fails the whole parse with its error |
| SpecParser.ParseFromChar | dd_scanf.h:69-180 | An accepted character is applied and parsing moves on; any other character stops the parse there |
| SpecParser.StateAfter | dd_scanf.h:71-90 | A character only sets state bits, never the escape, negation or top bit. Only '*', '+', '.', 'l' and 'h' change the state |
| SpecParser.WidthAfter | dd_scanf.h:76-133 | The width stays below 2^64. A width given before the type is kept, except by f, g, F, G and p. Flag and length characters leave it alone |
| SpecParser.KindAfter | dd_scanf.h:91-135 | The type is set by a type character and never unset; other characters leave it alone |
| SpecParser.StateFlags | dd_scanf.h:71-90 | One character sets the bit of '*', '+', '.' or 'h', or the long bit for a doubled 'l' or 'h'. Bits 0, 4 and 7 are left alone |
| SpecParser.FlagsStep | dd_scanf.h:69-90 | The flags of a run are those of its first character followed by those of the rest |
| SpecParser.PlainRunFlags | dd_scanf.h:69-90 | Over flag, width and type characters, each flag bit ends up set exactly when its character occurs. The escape, negation and top bits and the class are untouched |
| SpecParser.PlainRunWidth | dd_scanf.h:76-78 | Without type characters, the width is the digits folded in base ten, modulo 2^64, and the type is unchanged |
| SpecParser.DigitFoldValue | dd_scanf.h:76-78 | The folded width is the base-ten value of the digits, read left to right, modulo 2^64 |
| SpecParser.ParseFlags | dd_scanf.h:71-90 | '*', '+' and '.' set their bits exactly when they occur. The tier is 1 for "ll", 2 for 'h' and 3 for "hh". Escape and negation bits stay clear. Parsing returns the first rejected position |
| SpecParser.TierOfBits | dd_scanf.h:50 | The length tier is bit 5 plus twice bit 6 |
| SpecParser.ParseWidth | dd_scanf.h:76-78 | A specifier of flags and digits has no type, and its width is the digits' value modulo 2^64 |
| SpecParser.ParseTyped | dd_scanf.h:91-133 | Flags and width, then one type character: the type follows that character, and the width follows the default table |
| SpecParser.ParseTypeChar | dd_scanf.h:91-135 | A final type character sets the type and its default width and ends the parse |
| SpecParser.TypeWidthTable | dd_scanf.h:91-133 | With width 0, d/i/u give 10, c gives 1, x/X give 8 and o gives 11. f/g/F/G always give 8 and p always gives 16. e/E/s/b keep the width |
| SpecParser.PlainRunGoesOn | dd_scanf.h:69-180 | Parsing across a run of accepted characters continues from the record that run leaves |
| SpecParser.ParseClassDirective | dd_scanf.h:136-176 | Flags and width, then a class: the type is range, chset holds the compiled class, and the width is read. Negation is set exactly when a '^' occurs in the class, and escape stays clear |
| SpecParser.ClassAfterPrefix | dd_scanf.h:136-176 | The class compiles on top of the prefix's record as it would from a cleared state byte, and parsing ends after its ']' |
| SpecParser.ClassDirectiveBits | dd_scanf.h:142-147 | After the class, negation is set exactly when a '^' occurred, and escape stays clear |
| SpecParser.PlainPrefix | dd_scanf.h:69-90 | Flag and width characters leave no class and no type, leave escape and negation clear, and read the width |
| SpecParser.ParseClassStep | dd_scanf.h:136-176 | A class that closes just before the end ends the parse with type range and the compiled class |
| Convert.ReadInt | dd_scanf.h:196-198 | The cursor stays, or moves forward by at most the width; when it stays, the variable keeps its initial 0 |
| Convert.StringFrom | dd_scanf.h:293-313 | A string ends at the first blank, or after width characters when width is not 0. Everything it passes is non-blank. Running into the terminator is an error |
| Convert.Handle | dd_scanf.h:192-347 | The handler never moves the cursor backwards or past the input |
| Convert.HandleReplacement | dd_scanf.h:192-347 | The handler's switch returns what Handle describes |
| Convert.CopyString | dd_scanf.h:293-313 | Both copy loops, by width 0 or not, copy exactly the characters StringFrom delimits |
| Convert.HandleReadsInt | dd_scanf.h:194-334 | d/i and u are from_chars reads into the destination the length tier selects. o, x and X read a 32-bit unsigned value and p a 64-bit one, whatever the tier; x and X skip two characters first |
| Convert.ReadsBack | dd_scanf.h:196-198 | A read into a kind gets back the text of any number that kind can hold, when that text fits the width and either fills it or is followed by a non-digit |
| Convert.DecimalRoundTrip | dd_scanf.h:194-251 | 'd', 'i' and 'u' read back the decimal text of any number the tier's destination can hold, and store it, when that text fits the width and either fills it or is followed by a non-digit |
| Convert.DigitsReadBack | dd_scanf.h:196-198 | A read into a kind gets back the digits of any non-negative number that kind can hold, when those digits fit the width and either fill it or are followed by a non-digit |
| Convert.HexRoundTrip | dd_scanf.h:315-322 | 'x' and 'X' skip two characters, then read back the hexadecimal text of any 32-bit unsigned number, when that text fits the width and either fills it or is followed by a non-digit |
| Convert.HexReadsInt | dd_scanf.h:315-322 | 'x' and 'X' read a 32-bit unsigned hexadecimal number after the two characters they skip |
| Convert.OctalRoundTrip | dd_scanf.h:323-328 | 'o' reads back the octal text of any 32-bit unsigned number, when that text fits the width and either fills it or is followed by a non-digit |
| Convert.OctalReadsInt | dd_scanf.h:323-328 | 'o' reads a 32-bit unsigned octal number |
| Convert.PointerRoundTrip | dd_scanf.h:329-334 | 'p' reads back the hexadecimal text of any 64-bit unsigned number, when that text fits the width and either fills it or is followed by a non-digit |
| Convert.PointerReadsInt | dd_scanf.h:329-334 | 'p' reads a 64-bit unsigned hexadecimal number |
| Convert.OutOfRangeStoresZero | dd_scanf.h:223-251 | 'u' with a number too large for its destination still consumes the digits but stores 0 |
| Convert.TooLargeReadsZero | dd_scanf.h:226-228 | An unsigned read of a number above the kind's maximum consumes the digits and stores 0 |
| Convert.StringStopsAt | dd_scanf.h:293-313 | The string ends exactly at the first blank, or at the width |
| Convert.StringOverrun | dd_scanf.h:295-301 | A non-blank run that reaches the end within the width would be copied past the input, so it is an error |
| Convert.StringReadsWord | dd_scanf.h:293-313 | 's' copies a word followed by a blank whole, or its first width characters, and moves past what it copied |
| Convert.BooleanReadsWord | dd_scanf.h:335-341 | 'b' reads "true" as true and "false" as false, and moves past the word |
| Convert.DiscardReadsAlike | dd_scanf.h:456-460 | The '*' flag changes neither the cursor nor the value read, only whether it is stored |
| Convert.BooleanAndRange | dd_scanf.h:335-344 | 'b' stores true exactly when the character is 't', and moves 4 or 5 places on. A class leaves the cursor in place and writes nothing |
| Convert.CharacterAsWritten | dd_scanf.h:286-292 | As written, the input cursor survives exactly when there is no destination, and then it moves past the width |
| Convert.CharacterCursorLost | dd_scanf.h:286-292 | As written, an assigned 'c' loses the input cursor; corrected, the cursor moves past the width characters copied |
| Driver.StepAt | dd_scanf.h:387-469 | Each pass moves a cursor forward and neither past its end. Blanks, and only blanks, are skipped. A literal must match the input. "%%" matches exactly one '%' |
| Driver.ScanFrom | dd_scanf.h:387-470 | From a format position on, the scan makes no more stores than there are '%' characters left in the format |
| Driver.Scan | dd_scanf.h:383-471 | A whole scan makes no more stores than the format has '%' characters |
| Driver.ScanFromStep | dd_scanf.h:387-470 | The scan is its first pass followed by the rest of the scan |
| Driver.ResumeContinue | dd_scanf.h:387-470 | A pass that goes on appends its store and leaves the rest of the scan as it was |
| Driver.ResumeStop | dd_scanf.h:387-470 | A pass that stops ends the scan with the stores made so far |
| Driver.Vsscanf | dd_scanf.h:383-471 | The source's loop computes the status and stores that Scan describes |
| Driver.Pass | dd_scanf.h:388-468 | One iteration of the loop body does what StepAt describes |
| Driver.DirectivePass | dd_scanf.h:398-461 | The directive branch (extent, parse, escape check, conversion) does what StepAt describes |
| DriverProperties.Strip | dd_scanf.h:388-396 | Removing blanks leaves no blank and never lengthens the text |
| DriverProperties.LiteralScan | dd_scanf.h:387-470 | A format without '%' stores nothing. It completes exactly when the blank-free format and input agree up to the shorter one; otherwise it is a mismatch |
| DriverProperties.ScanOneInt | dd_scanf.h:383-471 | "%d" over an int's decimal text stores that int and completes; "%*d" reads the same text and stores nothing. The text is ten characters long or not followed by a digit |
| DriverProperties.IntStep | dd_scanf.h:398-461 | The one pass of "%d" or "%*d" consumes the whole format and the number's text |
| DriverProperties.LastStep | dd_scanf.h:387 | A first pass that uses up the format ends the scan with its store |
| DriverProperties.IntDirective | dd_scanf.h:91-94 | "%d" and "%*d" parse to the signed-int type with width 10, and the ignore bit for '*' |
| DriverProperties.IntInput | dd_scanf.h:194-200 | The int case reads the number's text and moves the cursor past it |
| DriverProperties.DirectiveStep | dd_scanf.h:398-461 | A non-escape directive with a type whose conversion succeeds moves both cursors on. It stores unless '*' was given |
| DriverProperties.StepAsWritten | dd_scanf.h:402-406 | The as-written pass differs from the corrected one exactly on "%%" against an input '%' |
| DriverProperties.EscapeLeavesPercent | dd_scanf.h:402-406 | "%%x" against "%x": as written, the '%' is left and then mismatches 'x'; corrected, the scan completes |

## Left out

- Floating-point conversions (dd_scanf.h:252-285) are not modelled. A directive of type f, g, F, G, e or E stops the scan with the `FloatingPoint` error.
- The `va_list` and the `scan_arg` union are not modelled. They are replaced by the ordered list of `Write`s. The model keeps that a class consumes an argument but writes nothing, and that `*` consumes none.
- `dd_sscanf`, std_scan_p1729r3.hpp and main.cpp are not part of this model.
- `dd_vsscanf` has no return statement after its loop (dd_scanf.h:470-471). When the loop ends because either text is used up, control flows off the end of a value-returning function, which is undefined behaviour in C++ ([stmt.return], section 8.7.4 of ISO/IEC 14882:2020). The model chooses `Complete` as the outcome there.
- Reads past the terminator, chset overflow and indeterminate reads are undefined behaviour in the source. The model reports an error for each:
  - a class with no ']' before the end of the format;
  - a 'z', 'Z' or '9' in a class with nothing written before it (the source reads `chset[-1]`);
  - more than 128 characters written to chset;
  - a directive whose type was never set, such as "%5" (the source reads `type` uninitialised);
  - a 'c', 'x', 'X' or 'b' conversion, or an 's' copy, that would run past the end of the input.
- The class (range) conversion is a no-op in the source, and the model keeps it so. The source leaves chset without a terminating NUL; the model does not need one.
- The source's bounded string copy counts with an `int` against the `size_t` width. The model counts with an unbounded integer, so it does not model the counter overflowing for widths above 2^31 - 1.
- Driver.Vsscanf: requires both texts to be NUL-free (`IsCString`), as strlen makes them in the source.
- DriverProperties.ScanOneInt: covers the whole-scan behaviour of "%d" and "%*d" only. Other directives are covered one step at a time by StepAt and the Convert lemmas.
- SpecParser.ParseTyped: states the result only for a specifier with no class before the type character. A class followed by further characters is covered by ParseFrom's step lemmas.

## Findings

| source | as written | input that shows it | evidently intended | confidence | as-written member | corrected member |
|---|---|---|---|---|---|---|
| dd_scanf.h:286-292 | With an argument, the character case sets the input cursor to memcpy's return value, which is the destination buffer | format "%c", input "ab": the cursor then points into the caller's buffer, not at "b" | the cursor moves past the width characters copied, as it does without an argument | high, not executed | Convert.CharacterAsWritten, Convert.CharacterCursorLost | Convert.Handle |
| dd_scanf.h:402-406 | "%%" checks that the input holds '%' but does not move the input cursor past it | format "%%x", input "%x": the next pass compares 'x' with '%' and returns -1 | "%%" consumes the '%' it matches | high, not executed | DriverProperties.StepAsWritten, DriverProperties.EscapeLeavesPercent | Driver.StepAt |
