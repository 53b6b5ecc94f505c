# ODB1 firmware drivers: GNSS sentence reader, RMC parser and BMP280 barometer

This project models, in Dafny, the sensor drivers of the ODB1 flight computer firmware and proves
properties of the model. It covers three C files.

- **`NMEA.c`** checks that an NMEA 0183 sentence is an RMC sentence. It then reads the time of fix,
  the fix flag and the latitude and longitude into a `GPS_Data` record. It does this by cutting a
  bounded copy of the sentence with `strtok`, copying fixed-width pieces with `strncpy`, and reading
  them with `atoi` and `atof`.
- **`L76LM33.c`** handles the GNSS receiver.
  - An interrupt callback queues UART bytes into a ring buffer and raises a new-line flag.
  - `ReadSentence` frames one `$...\n` sentence into a 256-byte buffer.
  - `Read` validates that sentence, parses it and copies the fix and position into the caller's
    `L76LM33` record.
- **`BMP280.c`** is the integer layer of the barometer driver:
  - register reads and writes over SPI, with the read/write bit 7 of the control byte;
  - soft reset and mode selection;
  - the 24 calibration bytes turned into twelve 16-bit trimming words;
  - the 20-bit raw readings and the "no measurement" value 0x80000;
  - the fixed-point temperature and pressure compensation of the Bosch datasheet, in 32-bit and
    64-bit two's-complement arithmetic.

The modules follow the C code.

- **`CInts` and `CBits`** give the C integer operators their meaning. This covers wrap-around to
  `int32_t`, `int64_t`, `uint32_t`, `uint8_t` and `int16_t`, arithmetic right shift, division toward
  zero, and `|` and `&` on disjoint bit ranges.
- **`CStrings` and `CNumbers`** give the C library functions the parser calls their meaning:
  `strnlen`, `strndup`, `strncpy`, `strncmp`, `strtok`, `atoi` and `atof`. Each is stated over a
  `seq<CChar>`, with the C string ending at the first NUL.
- **`Nmea`** holds `ValidateRMC`, the per-field readers, the whole parse as a function
  (`ParseRMCSpec`), and `ParseRMC`. `ParseRMC` is a method that writes into a `GpsData` object, as
  the C code writes through its pointer.
- **`NmeaFields`, `NmeaParse` and `NmeaExamples`** state what the fields mean. They cover which
  sentences are rejected, what an accepted sentence leaves in the record, and the firmware's own
  example sentence.
- **`L76`** holds the receiver as a class.
  - Its state is the FIFO as a sequence, the new-line flag, the 256-byte sentence buffer as an
    array, and the parsed GPS record.
  - `RxCallback`, `ReadSentence` (with its clear loop, its search for `$` and its copy loop) and
    `Read` are methods.
  - Each is proved against a framing function `Frame` and an outcome function `ReadOutcome`.
- **`L76Framing` and `L76Examples`** state what framing accepts and rejects, and prove what the reader
  returns on concrete sentences.
- **`Bmp280Math`** holds the pure arithmetic. **`Bmp280Driver`** holds the driver as methods of a
  `Driver` class over a scripted SPI bus. Each HAL call consumes the next scripted outcome and
  bytes, and the bus records every frame that was sent.

### Edge cases of the code

- **A byte stream with no `$` and no `\n` gives -2 (no data), not -1.** `L76LM33_ReadSentence`
  returns -2 in that case:
  - if the new-line flag was never raised, it returns before reading anything
    (`L76LM33.c:160-162`);
  - if the flag was raised, the ring buffer empties before a `$` is found (`L76LM33.c:180-182`).

  -1 comes only after 100 bytes without a `$`. See `L76Framing.FrameNoStartYet` and
  `L76Framing.FrameNoStart`.
- **A non-RMC sentence sets `status` to 0 and leaves fix and position as they were**
  (`L76LM33.c:131-134`). See `L76Examples.ReadGgaSentence`.

## Model

| member | source | states |
|---|---|---|
| CInts.Wrap32 | Core/Src/GAUL_Drivers/BMP280.c:204-208 | an `int32_t` result is in range, congruent to the exact value modulo 2^32, and equal to it when it fits |
| CInts.Wrap64 | Core/Src/GAUL_Drivers/BMP280.c:236-249 | an `int64_t` result is in range, congruent modulo 2^64, and exact when it fits |
| CInts.ToUint32 | Core/Src/GAUL_Drivers/BMP280.c:250 | the `(uint32_t)` cast lands in [0, 2^32), is congruent modulo 2^32, and keeps values already in range |
| CInts.ToUint8 | Core/Src/GAUL_Drivers/NMEA.c:77-81 | storing an `int` into a `uint8_t` field lands in [0, 256), is congruent modulo 256, and keeps small values |
| CInts.ToInt16 | Core/Src/GAUL_Drivers/BMP280.c:136-146 | a 16-bit word stored into an `int16_t` field is the two's-complement value congruent to it |
| CInts.Sar | Core/Src/GAUL_Drivers/BMP280.c:197 | `x >> k` on a signed value is the floor of x / 2^k |
| CInts.TruncDiv | Core/Src/GAUL_Drivers/BMP280.c:246 | C division: the remainder is smaller than the divisor in magnitude and has the sign of the dividend |
| CBits.OrDisjoint | Core/Src/GAUL_Drivers/BMP280.c:135 | or-ing b below 2^k into `a << k` gives a·2^k + b |
| CBits.AndLowMask | Core/Src/GAUL_Drivers/BMP280.c:197 | `x & (2^k - 1)` is x mod 2^k |
| CBits.OrBit | Core/Src/GAUL_Drivers/BMP280.c:329 | or-ing in bit k adds 2^k exactly when that bit was clear |
| CStrings.StrnLen | Core/Src/GAUL_Drivers/NMEA.c:67 | `strnlen` counts the NUL-free prefix, capped at n and at the buffer end |
| CStrings.StrndupCons | Core/Src/GAUL_Drivers/NMEA.c:53 | `strndup` copies byte by byte until a NUL or n bytes |
| CStrings.Strncpy | Core/Src/GAUL_Drivers/NMEA.c:75-76 | `strncpy` keeps the destination's length and leaves every byte from n on untouched |
| CStrings.StrncpyString | Core/Src/GAUL_Drivers/NMEA.c:75-77 | copying n bytes into a buffer with a NUL at n yields the C string `strndup(src, n)` |
| CStrings.StrndupHasNoNul | Core/Src/GAUL_Drivers/NMEA.c:53 | a `strndup` copy holds no NUL |
| CStrings.StrndupStopsAtNul | Core/Src/GAUL_Drivers/NMEA.c:53 | `strndup` of a NUL-free text followed by a terminator is that text cut at n |
| CStrings.StrndupNulFree | Core/Src/GAUL_Drivers/NMEA.c:53 | on a NUL-free prefix, `strnlen` is min(n, length) and `strndup` is the prefix |
| CStrings.StrndupPrefix | Core/Src/GAUL_Drivers/NMEA.c:53 | `strndup(s, n)` depends only on the first n bytes of s |
| CStrings.StrncpyNulFree | Core/Src/GAUL_Drivers/NMEA.c:109-113 | `strncpy` from a NUL-free source is the source prefix, NUL padding, then the destination's tail |
| CStrings.StrncmpZero | Core/Src/GAUL_Drivers/NMEA.c:30 | `strncmp(a, b, n) == 0` exactly when the first n bytes of the C strings agree |
| CStrings.DelimAt | Core/Src/GAUL_Drivers/NMEA.c:62 | the first delimiter at or after `from`, or the end |
| CStrings.DelimAtIs | Core/Src/GAUL_Drivers/NMEA.c:62 | any position satisfying that description is the one `DelimAt` finds |
| CStrings.SkipDelims | Core/Src/GAUL_Drivers/NMEA.c:62 | `strtok` skips a run of delimiters to the first non-delimiter |
| CStrings.NextToken | Core/Src/GAUL_Drivers/NMEA.c:160 | a token `strtok` hands out is non-empty, free of the delimiter, and moves the position forward |
| CStrings.Split | Core/Src/GAUL_Drivers/NMEA.c:62 | the reference split of a text at every delimiter, empty fields included, is never empty |
| CStrings.NonEmptyAppend | Core/Src/GAUL_Drivers/NMEA.c:62 | dropping empty fields distributes over concatenation |
| CStrings.DelimAtSuffix | Core/Src/GAUL_Drivers/NMEA.c:160 | searching a suffix finds the same delimiter, shifted |
| CStrings.StrtokIsNonEmptyFields | Core/Src/GAUL_Drivers/NMEA.c:62-160 | the tokens of repeated `strtok` calls are exactly the non-empty fields of the split, so empty fields vanish |
| CStrings.TokensFromSuffix | Core/Src/GAUL_Drivers/NMEA.c:160 | the same from any position on, by induction over the text |
| CStrings.SuffixAfterDelim | Core/Src/GAUL_Drivers/NMEA.c:160 | the induction step over a leading delimiter |
| CStrings.SuffixAfterToken | Core/Src/GAUL_Drivers/NMEA.c:160 | the induction step over a token ended by a delimiter |
| CStrings.AtEnd | Core/Src/GAUL_Drivers/NMEA.c:160 | at the end of the text there are no more tokens |
| CStrings.LeadingDelim | Core/Src/GAUL_Drivers/NMEA.c:160 | a leading delimiter yields an empty field and no token |
| CStrings.TokenThenDelim | Core/Src/GAUL_Drivers/NMEA.c:160 | a token ended by a delimiter is both the next token and the next field |
| CStrings.FieldThenDelim | Core/Src/GAUL_Drivers/NMEA.c:160 | the split peels off the field before the next delimiter |
| CStrings.SplitUnfold | Core/Src/GAUL_Drivers/NMEA.c:160 | the split of a text with a delimiter at k is its prefix, then the split of the rest |
| CStrings.LastToken | Core/Src/GAUL_Drivers/NMEA.c:160 | a final token without a delimiter is the last token and the last field |
| CStrings.SplitJoin | Core/Src/GAUL_Drivers/NMEA.c:62 | round trip: splitting delimiter-free fields joined by the delimiter gives the fields back |
| CStrings.SplitJoinThen | Core/Src/GAUL_Drivers/NMEA.c:62 | the same with any text after one more delimiter |
| CStrings.SplitField | Core/Src/GAUL_Drivers/NMEA.c:62 | a delimiter-free field, then a delimiter, splits off as one field |
| CStrings.StrtokJoinThen | Core/Src/GAUL_Drivers/NMEA.c:62-160 | tokenizing joined fields, then more text, gives the non-empty fields, then the tokens of that text |
| CStrings.StrtokJoin | Core/Src/GAUL_Drivers/NMEA.c:62-160 | tokenizing joined fields gives exactly the non-empty fields |
| CStrings.JoinAvoids | Core/Src/GAUL_Drivers/NMEA.c:62 | joining fields adds no byte other than the delimiter |
| CStrings.NonEmptyKeeps | Core/Src/GAUL_Drivers/NMEA.c:62 | when no field is empty, the tokens are all the fields |
| CStrings.TokensAreFields | Core/Src/GAUL_Drivers/NMEA.c:160 | every token is non-empty and free of the delimiter |
| CStrings.TokensHaveNoNul | Core/Src/GAUL_Drivers/NMEA.c:160 | tokens of a NUL-free copy hold no NUL |
| CStrings.EmptyFieldShiftsTokens | Core/Src/GAUL_Drivers/NMEA.c:62-161 | "A,,B" has three fields but two tokens: an empty field shifts the token index of the fields after it |
| CNumbers.DigitValue | Core/Src/GAUL_Drivers/NMEA.c:77 | a hexadecimal digit has a value below 16, and a decimal digit below 10 |
| CNumbers.Span | Core/Src/GAUL_Drivers/NMEA.c:77 | the longest run of bytes with a property, starting at i |
| CNumbers.SpanIs | Core/Src/GAUL_Drivers/NMEA.c:77 | any run end satisfying that description is the one `Span` finds |
| CNumbers.Pow | Core/Src/GAUL_Drivers/NMEA.c:77 | a power of a positive base is positive |
| CNumbers.RealPow | Core/Src/GAUL_Drivers/NMEA.c:85 | an integer power of a positive base is positive |
| CNumbers.ValueAppend | Core/Src/GAUL_Drivers/NMEA.c:77 | the value of concatenated digits shifts the first part by the length of the second |
| CNumbers.ValueBound | Core/Src/GAUL_Drivers/NMEA.c:77 | n decimal digits denote less than 10^n |
| CNumbers.SignEnd | Core/Src/GAUL_Drivers/NMEA.c:77 | an optional sign is skipped without leaving the text |
| CNumbers.ScanMantissa | Core/Src/GAUL_Drivers/NMEA.c:85 | the integer and fraction digit runs of a number, in order and within the text |
| CNumbers.AtoiDigits | Core/Src/GAUL_Drivers/NMEA.c:77 | `atoi` of digits followed by a terminator is their decimal value |
| CNumbers.AtofUnsigned | Core/Src/GAUL_Drivers/NMEA.c:85 | `atof` of a text starting with a digit and no hex prefix is its decimal magnitude |
| CNumbers.MagnitudeFixedPoint | Core/Src/GAUL_Drivers/NMEA.c:85 | the decimal magnitude of `ddd.fff` is the integer value plus the fraction value |
| CNumbers.MagnitudeInteger | Core/Src/GAUL_Drivers/NMEA.c:85 | the decimal magnitude of bare digits is their value |
| CNumbers.AtofFixedPoint | Core/Src/GAUL_Drivers/NMEA.c:85 | `atof("ddd.fff" + terminator)` is the exact fixed-point value |
| CNumbers.AtofFixedPointAt | Core/Src/GAUL_Drivers/NMEA.c:85 | the same for a point at a given offset of a buffer |
| CNumbers.AtofDigits | Core/Src/GAUL_Drivers/NMEA.c:85 | `atof` of digits then a terminator is their value |
| CNumbers.AtoiTerminated | Core/Src/GAUL_Drivers/NMEA.c:77 | `atoi("12\0")` is 12 |
| CNumbers.AtoiNegative | Core/Src/GAUL_Drivers/NMEA.c:77 | `atoi(" -7")` is -7: blanks skipped, sign applied |
| CNumbers.AtoiPlus | Core/Src/GAUL_Drivers/NMEA.c:77 | `atoi("+5x")` is 5: reading stops at the first non-digit |
| CNumbers.AtoiNoDigits | Core/Src/GAUL_Drivers/NMEA.c:77 | `atoi("x5")` is 0 |
| CNumbers.AtofExponentExample | Core/Src/GAUL_Drivers/NMEA.c:85 | `atof("1.5e2")` is 150 |
| CNumbers.ExponentSampleScan | Core/Src/GAUL_Drivers/NMEA.c:85 | how `atof` scans "1.5e2": no blank, no sign, mantissa 1.5, exponent 2 |
| CNumbers.AtofHexExample | Core/Src/GAUL_Drivers/NMEA.c:85 | `atof("0x1p3")` is 8 |
| CNumbers.HexSampleScan | Core/Src/GAUL_Drivers/NMEA.c:85 | how `atof` scans "0x1p3": hex prefix, mantissa 1, binary exponent 3 |
| CNumbers.AtofBareHexPrefix | Core/Src/GAUL_Drivers/NMEA.c:85 | `atof("0x")` reads the 0 and stops: 0 |
| Nmea.GpsData.constructor | Core/Src/GAUL_Drivers/L76LM33.c:41 | the module's `GPS_Data` starts zeroed, as a static C struct |
| Nmea.ValidateRMC | Core/Src/GAUL_Drivers/NMEA.c:29-31 | 0 exactly when bytes 3..5 are "RMC", otherwise -1 |
| Nmea.StrndupRMC | Core/Src/GAUL_Drivers/NMEA.c:30 | the three compared bytes equal "RMC" exactly when they are 'R', 'M', 'C' |
| Nmea.Sign | Core/Src/GAUL_Drivers/NMEA.c:117-127 | a hemisphere letter gives a sign exactly when it is one of the two accepted letters |
| Nmea.ParseFrom | Core/Src/GAUL_Drivers/NMEA.c:58-162 | the token loop returns only 0 or -1 |
| Nmea.ParseRMC | Core/Src/GAUL_Drivers/NMEA.c:46-166 | a NULL sentence or record gives -1 and no write; otherwise the return code and the record are those of `ParseRMCSpec` on the sentence and the old record |
| Nmea.ReadToken | Core/Src/GAUL_Drivers/NMEA.c:66-158 | reading one token updates the record and continues or stops exactly as `Field` says |
| Nmea.TokensNext | Core/Src/GAUL_Drivers/NMEA.c:160 | the next `strtok` call hands out the next token |
| Nmea.ParseNext | Core/Src/GAUL_Drivers/NMEA.c:160-161 | a field that continues hands the updated record to the next token |
| Nmea.ParseStop | Core/Src/GAUL_Drivers/NMEA.c:68-126 | a field that stops ends the parse with its code and record |
| NmeaFields.AtoiOfCopy | Core/Src/GAUL_Drivers/NMEA.c:109-115 | `atoi` of n digits copied into a default buffer is their value |
| NmeaFields.TwoDigitsOfCopy | Core/Src/GAUL_Drivers/NMEA.c:75-81 | two copied digits stored into a `uint8_t` are their value, below 100, so no truncation |
| NmeaFields.AtofOfCopy | Core/Src/GAUL_Drivers/NMEA.c:83-85 | `atof` of a copied `dd.fff` piece is its exact value |
| NmeaFields.AtofOfDigitsCopy | Core/Src/GAUL_Drivers/NMEA.c:83-85 | `atof` of copied digits with no point is their value |
| NmeaFields.TimeDigits | Core/Src/GAUL_Drivers/NMEA.c:66-85 | a well-formed time field sets hours, minutes and seconds to the values its digits denote |
| NmeaFields.TimeAccepted | Core/Src/GAUL_Drivers/NMEA.c:67-73 | a well-formed time passes both length checks |
| NmeaFields.TimeSeconds | Core/Src/GAUL_Drivers/NMEA.c:83-85 | the seconds buffer reads as `ss.sss`, at most three decimals |
| NmeaFields.CoordinateLength | Core/Src/GAUL_Drivers/NMEA.c:105 | a well-formed coordinate passes the `strnlen` length check |
| NmeaFields.CoordinateMinutes | Core/Src/GAUL_Drivers/NMEA.c:112-113 | the minutes buffer reads as `mm.mmmmmm`, at most six decimals |
| NmeaFields.LatitudeDigits | Core/Src/GAUL_Drivers/NMEA.c:103-115 | a well-formed latitude field sets the latitude to degrees plus minutes/60, as its digits denote |
| NmeaFields.DecimalDegreesOf | Core/Src/GAUL_Drivers/NMEA.c:115 | `atoi(degrees) + atof(minutes) / 60` is the reference degrees-and-minutes conversion |
| NmeaFields.LongitudeDigits | Core/Src/GAUL_Drivers/NMEA.c:131-143 | the same for a longitude field with three degree digits |
| NmeaFields.LatitudeExample | Core/Src/GAUL_Drivers/NMEA.c:103-115 | the documented latitude 3029.461489 is accepted and read as 30 + 29.461489/60 |
| NmeaFields.LongitudeExample | Core/Src/GAUL_Drivers/NMEA.c:131-143 | the documented longitude 11430.072002 is accepted and read as 114 + 30.072002/60 |
| NmeaFields.TimeExample | Core/Src/GAUL_Drivers/NMEA.c:66-85 | the documented time 080608.000 is 08:06:08 |
| NmeaParse.FieldOutcome | Core/Src/GAUL_Drivers/NMEA.c:66-158 | a field stops the parse exactly when it is rejected (-1, record unchanged) or is the no-fix 'V' (0, fix and position zeroed) |
| NmeaParse.ParseFails | Core/Src/GAUL_Drivers/NMEA.c:58-165 | the parse returns -1 exactly when some examined token is rejected before any token ends the parse |
| NmeaParse.NothingRejectedAfterEnd | Core/Src/GAUL_Drivers/NMEA.c:97-101 | after the 'V' break, no later token can make the parse fail |
| NmeaParse.RejectedPastField | Core/Src/GAUL_Drivers/NMEA.c:65-161 | a token that is read and passed on does not change whether a rejection lies ahead |
| NmeaParse.ParseFromAgree | Core/Src/GAUL_Drivers/NMEA.c:65 | the parse depends only on the examined tokens |
| NmeaParse.OnlySevenTokens | Core/Inc/GAUL_Drivers/NMEA.h:16 | tokens after the seventh are never read |
| NmeaParse.TokenZeroIgnored | Core/Src/GAUL_Drivers/NMEA.c:58-66 | the sentence identifier token does not influence the parse |
| NmeaParse.RmcTokensWellFormed | Core/Src/GAUL_Drivers/NMEA.c:53-62 | tokens of the bounded copy are non-empty, NUL-free and comma-free |
| NmeaParse.OnlyFirstBytes | Core/Src/GAUL_Drivers/NMEA.c:53 | only the first 90 bytes of a sentence matter (`NMEA_MAX_RMC_LENGTH`) |
| NmeaParse.LaterFieldsKeepFix | Core/Src/GAUL_Drivers/NMEA.c:103-158 | no field after the status touches the fix flag |
| NmeaParse.FixFollowsStatus | Core/Src/GAUL_Drivers/NMEA.c:87-101 | after a successful parse, fix is 1 iff the status token starts with 'A', 0 iff with 'V', and no fix means a zero position |
| NmeaParse.ShortSentenceKeepsPosition | Core/Src/GAUL_Drivers/NMEA.c:65-85 | a sentence without a status token leaves fix and position as they were |
| NmeaParse.TimeKeepsPosition | Core/Src/GAUL_Drivers/NMEA.c:66-85 | the time field writes only the time |
| NmeaParse.ParseKeepsRanges | Core/Src/GAUL_Drivers/NMEA.c:77-90 | the parse keeps hours, minutes and fix within their C types |
| NmeaParse.FieldKeepsRanges | Core/Src/GAUL_Drivers/NMEA.c:66-157 | each field keeps them within their C types |
| NmeaParse.ParseValidFix | Core/Src/GAUL_Drivers/NMEA.c:46-166 | a sentence with a fix and well-formed fields parses to its time, fix 1, and signed decimal-degree position |
| NmeaParse.ParsePosition | Core/Src/GAUL_Drivers/NMEA.c:103-157 | well-formed position fields give the signed decimal-degree latitude and longitude |
| NmeaParse.ParseLatitude | Core/Src/GAUL_Drivers/NMEA.c:103-129 | latitude then N/S give the signed latitude |
| NmeaParse.ParseLongitude | Core/Src/GAUL_Drivers/NMEA.c:131-157 | longitude then E/W give the signed longitude and end the parse with 0 |
| NmeaParse.LatitudeStep | Core/Src/GAUL_Drivers/NMEA.c:103-115 | token 3, when well formed, sets the latitude it denotes |
| NmeaParse.LongitudeStep | Core/Src/GAUL_Drivers/NMEA.c:131-143 | token 5, when well formed, sets the longitude it denotes |
| NmeaParse.LastField | Core/Src/GAUL_Drivers/NMEA.c:145-161 | after token 6 the loop ends with 0 |
| NmeaParse.ParseNoFix | Core/Src/GAUL_Drivers/NMEA.c:87-101 | a 'V' status parses to the time, fix 0 and a zero position, with success |
| NmeaParse.HemisphereSteps | Core/Src/GAUL_Drivers/NMEA.c:117-157 | N and E keep the sign; S and W negate the coordinate |
| NmeaExamples.SentenceTokens | Core/Src/GAUL_Drivers/NMEA.c:53-62 | a sentence built from fields yields its non-empty fields as tokens |
| NmeaExamples.FixSentenceTokens | Core/Src/GAUL_Drivers/NMEA.c:53-62 | the documented sentence's first seven tokens are its first seven fields |
| NmeaExamples.FixFieldsParse | Core/Src/GAUL_Drivers/NMEA.c:46-166 | those tokens parse to 08:06:08, fix 1, latitude 30 + 29.461489/60 and longitude 114 + 30.072002/60 |
| NmeaExamples.FixSentenceParses | Core/Src/GAUL_Drivers/NMEA.c:33-45 | the documented sentence parses to that record with 0, whatever follows the position |
| NmeaExamples.NoFixSentenceParses | Core/Src/GAUL_Drivers/NMEA.c:87-101 | the documented sentence with 'V' and empty position fields parses with fix 0 and a zero position |
| NmeaExamples.NoTimeSentenceFails | Core/Src/GAUL_Drivers/NMEA.c:66-69 | with the time field empty, 'V' becomes token 1 and the parse fails with the record unchanged |
| NmeaExamples.TimeThenAnything | Core/Src/GAUL_Drivers/NMEA.c:66-85 | the documented time stays well formed whatever follows it |
| NmeaExamples.TimeOnlySentenceParses | Core/Src/GAUL_Drivers/NMEA.c:65-165 | a sentence that ends after its time sets the time, keeps the rest of the record, and returns 0 |
| NmeaExamples.TimeOnlyTokens | Core/Src/GAUL_Drivers/NMEA.c:62-160 | that sentence has two tokens |
| L76.Enqueue | Core/Src/GAUL_Drivers/L76LM33.c:99 | a byte joins the back of a FIFO that is not full, and the FIFO never exceeds its capacity |
| L76.Enqueued | Core/Src/GAUL_Drivers/L76LM33.c:96-106 | queuing a run of bytes keeps the FIFO within capacity |
| L76.EnqueuedAppends | Core/Src/GAUL_Drivers/L76LM33.c:99 | with room for them, queued bytes are appended in arrival order |
| L76.EnqueuedDropNewest | Core/Src/GAUL_Drivers/L76LM33.c:99 | a full FIFO that drops arrivals keeps the oldest `capacity` bytes |
| L76.EnqueuedOverwriteOldest | Core/Src/GAUL_Drivers/L76LM33.c:99 | a full FIFO that overwrites keeps the newest `capacity` bytes |
| L76.Zeros | Core/Src/GAUL_Drivers/L76LM33.c:167-170 | a cleared buffer is all NUL |
| L76.Find | Core/Src/GAUL_Drivers/L76LM33.c:177-190 | the first position of a byte within a search bound, or its absence from that window |
| L76.FindAbsent | Core/Src/GAUL_Drivers/L76LM33.c:177-190 | absent from the window means not found |
| L76.FindAt | Core/Src/GAUL_Drivers/L76LM33.c:177-190 | the first occurrence within the bound is what is found |
| L76.Frame | Core/Src/GAUL_Drivers/L76LM33.c:159-217 | framing returns 0, -1 or -2, fills exactly 256 bytes, and leaves a suffix of the FIFO |
| L76.FrameLine | Core/Src/GAUL_Drivers/L76LM33.c:197-216 | the copy after '$' returns 0, -1 or -2, fills 256 bytes, and leaves a suffix |
| L76.L76LM33.constructor | Core/Inc/GAUL_Drivers/L76LM33.h:19-24 | the caller's record holds the given fields |
| L76.Receiver.constructor | Core/Src/GAUL_Drivers/L76LM33.c:30-41 | start-up state: empty FIFO, flag clear, zeroed sentence buffer and GPS record |
| L76.Receiver.RxCallback | Core/Src/GAUL_Drivers/L76LM33.c:96-106 | a byte from the bound UART is queued and a '\n' raises the flag; other UARTs change nothing |
| L76.Receiver.Dequeue | Core/Src/GAUL_Drivers/L76LM33.c:180 | dequeuing yields the oldest byte and removes it, or reports the FIFO empty |
| L76.Receiver.ReadSentence | Core/Src/GAUL_Drivers/L76LM33.c:159-217 | flag clear gives -2 with nothing touched; otherwise the flag is cleared and the code, FIFO and buffer are those of `Frame` |
| L76.Receiver.ClearSentence | Core/Src/GAUL_Drivers/L76LM33.c:167-170 | the loop zeroes all 256 bytes |
| L76.Receiver.SeekStart | Core/Src/GAUL_Drivers/L76LM33.c:177-194 | finds '$' within 100 pops exactly when `Find` does, storing it at byte 0; otherwise -2 (FIFO ran dry) or -1 (100 pops) |
| L76.Receiver.PopUntilStart | Core/Src/GAUL_Drivers/L76LM33.c:178-190 | the pop loop stops at the first '$', at an empty FIFO, or after 100 bytes, having removed exactly what it read |
| L76.Receiver.CopyLine | Core/Src/GAUL_Drivers/L76LM33.c:197-216 | the copy loop leaves the code, FIFO and buffer of `FrameLine` |
| L76.Receiver.Read | Core/Src/GAUL_Drivers/L76LM33.c:119-149 | with the flag clear, -2 and nothing changes; otherwise the FIFO and buffer are those of `Frame`, and the code, GPS record and caller's record are those of `ReadOutcome` |
| L76.StartMissing | Core/Src/GAUL_Drivers/L76LM33.c:177-194 | no '$' in the bytes popped: -2 if the FIFO ran dry first, -1 with the rest kept after 100 pops |
| L76.ZerosWithHead | Core/Src/GAUL_Drivers/L76LM33.c:186 | writing '$' at byte 0 of the cleared buffer gives '$' then 255 NULs |
| L76.StartFound | Core/Src/GAUL_Drivers/L76LM33.c:184-188 | the first '$' within 100 bytes starts the copy right after it |
| L76.CopyCut | Core/Src/GAUL_Drivers/L76LM33.c:200-202 | a FIFO that runs dry before '\n' gives -2 with the bytes copied so far |
| L76.CopyEnd | Core/Src/GAUL_Drivers/L76LM33.c:204-209 | the first '\n' ends the copy with 0, the line copied and the rest left in the FIFO |
| L76.CopyTooLong | Core/Src/GAUL_Drivers/L76LM33.c:212-214 | 255 bytes without '\n' fill the buffer and give -1 |
| L76Framing.FrameAccepts | Core/Src/GAUL_Drivers/L76LM33.c:159-217 | junk without '$', then "$" + line + "\n" fitting the buffer, frames to 0 with that line and the rest kept |
| L76Framing.FrameOnlyAccepts | Core/Src/GAUL_Drivers/L76LM33.c:159-217 | conversely, framing returns 0 only on a FIFO of that shape |
| L76Framing.FramedLine | Core/Src/GAUL_Drivers/L76LM33.c:184-216 | an accepted sentence starts with '$', ends at its only '\n', and is NUL-padded |
| L76Framing.FrameNoStart | Core/Src/GAUL_Drivers/L76LM33.c:192-194 | 100 bytes without '$' give -1 with those bytes consumed |
| L76Framing.FrameNoStartYet | Core/Src/GAUL_Drivers/L76LM33.c:180-182 | fewer than 100 bytes and no '$' give -2 with the FIFO emptied |
| L76Framing.FrameTooLong | Core/Src/GAUL_Drivers/L76LM33.c:198-214 | a line of 255 bytes without '\n' gives -1 |
| L76Framing.FrameCut | Core/Src/GAUL_Drivers/L76LM33.c:200-202 | a line still arriving gives -2 with its bytes consumed |
| L76Framing.ReadTouches | Core/Src/GAUL_Drivers/L76LM33.c:119-149 | `Read` gives -2 iff framing did, and then changes no record; -1 clears only the status; 0 iff the sentence frames, is RMC and parses, and then copies fix and position with status 1 |
| L76Examples.FramedLineParses | Core/Src/GAUL_Drivers/L76LM33.c:130-140 | the framed buffer validates and parses like the line itself |
| L76Examples.ReadOfLine | Core/Src/GAUL_Drivers/L76LM33.c:119-149 | reading a FIFO holding one line gives the validate/parse outcome of that line and keeps what follows |
| L76Examples.FixLine | Core/Src/GAUL_Drivers/L76LM33.c:159-217 | the documented sentence fits the buffer and is RMC |
| L76Examples.ReadFixSentence | Core/Src/GAUL_Drivers/L76LM33.c:119-149 | reading the documented sentence gives 0 and status 1, fix 1 and its position |
| L76Examples.ReadGgaSentence | Core/Src/GAUL_Drivers/L76LM33.c:130-134 | a GGA sentence gives -1, clears the status, and leaves the GPS record alone |
| L76Examples.ReadNoTimeSentence | Core/Src/GAUL_Drivers/L76LM33.c:136-140 | a sentence with an empty time field gives -1 and clears the status |
| L76Examples.ReadTimeOnlySentence | Core/Src/GAUL_Drivers/L76LM33.c:142-148 | a sentence ending after its time gives 0, status 1, and the previous fix and position |
| Bmp280Math.ReadAddressIsOr | Core/Src/GAUL_Drivers/BMP280.c:329 | the read control byte is reg with bit 7 or-ed in (0x80) |
| Bmp280Math.WriteAddressIsAnd | Core/Src/GAUL_Drivers/BMP280.c:359 | the write control byte is `reg & ~0x80` |
| Bmp280Math.AddressesDifferInBit7 | Core/Src/GAUL_Drivers/BMP280.c:324-371 | read and write control bytes differ exactly in bit 7, and each encoding ignores the other's bit |
| Bmp280Math.WordIsOr | Core/Src/GAUL_Drivers/BMP280.c:135 | `hi << 8` or-ed with `lo` is the unsigned 16-bit word hi·256 + lo |
| Bmp280Math.CalibrationOf | Core/Src/GAUL_Drivers/BMP280.c:135-146 | the twelve words fit their C types (T1 and P1 `uint16_t`, the rest `int16_t`) |
| Bmp280Math.WordBytes | Core/Inc/GAUL_Drivers/BMP280.h:71-84 | a 16-bit value is stored as two register bytes |
| Bmp280Math.CalibrationBytes | Core/Inc/GAUL_Drivers/BMP280.h:71-84 | a calibration is stored as 24 register bytes |
| Bmp280Math.UnsignedWord | Core/Src/GAUL_Drivers/BMP280.c:135 | an unsigned word read back from its bytes is itself |
| Bmp280Math.SignedWord | Core/Src/GAUL_Drivers/BMP280.c:136 | a signed word read back from its bytes through `int16_t` is itself |
| Bmp280Math.WordOfBytes | Core/Src/GAUL_Drivers/BMP280.c:135-146 | two bytes read as a word and re-encoded are the same two bytes |
| Bmp280Math.CalibrationRoundTrip | Core/Src/GAUL_Drivers/BMP280.c:135-146 | decoding the bytes of a calibration gives it back |
| Bmp280Math.CalibrationBytesRoundTrip | Core/Src/GAUL_Drivers/BMP280.c:135-146 | re-encoding decoded calibration bytes gives the bytes back, so the decoding loses nothing |
| Bmp280Math.TemperatureBytes | Core/Src/GAUL_Drivers/BMP280.c:135-137 | T1..T3 come from bytes 0..5 |
| Bmp280Math.PressureBytes | Core/Src/GAUL_Drivers/BMP280.c:138-146 | P1..P9 come from bytes 6..23 |
| Bmp280Math.Adc | Core/Src/GAUL_Drivers/BMP280.c:197 | a raw reading is a 20-bit value |
| Bmp280Math.AdcIsOr | Core/Src/GAUL_Drivers/BMP280.c:197 | the C shift-and-or expression equals msb·4096 + lsb·16 + xlsb/16 |
| Bmp280Math.LowNibble | Core/Src/GAUL_Drivers/BMP280.c:197 | `(xlsb >> 4) & 0x0F` is the high nibble of xlsb |
| Bmp280Math.HighBits | Core/Src/GAUL_Drivers/BMP280.c:197 | `msb << 12` or-ed with `lsb << 4` is the 16-bit word shifted by 4 |
| Bmp280Math.NoMeasurementBytes | Core/Src/GAUL_Drivers/BMP280.c:200-202 | the reading is 0x80000 exactly when msb is 0x80, lsb is 0, and xlsb's high nibble is 0 |
| Bmp280Math.TFineExact | Core/Src/GAUL_Drivers/BMP280.c:204-206 | near the calibration point, the wrapped `int32_t` t_fine is the datasheet formula over unbounded integers |
| Bmp280Math.TemperatureVar1Exact | Core/Src/GAUL_Drivers/BMP280.c:204 | var1 then does not wrap and stays within ±2^20 |
| Bmp280Math.TemperatureVar2Exact | Core/Src/GAUL_Drivers/BMP280.c:205 | var2 then does not wrap and stays within ±2^15 |
| Bmp280Math.TemperatureRounds | Core/Src/GAUL_Drivers/BMP280.c:208 | T is t_fine·5/256 rounded to nearest, halves up |
| Bmp280Math.TemperatureMonotonic | Core/Src/GAUL_Drivers/BMP280.c:208 | T never decreases as t_fine grows |
| Bmp280Math.Pressure | Core/Src/GAUL_Drivers/BMP280.c:236-250 | no pressure exactly when the divisor is 0; otherwise a `uint32_t` Q24.8 value |
| Bmp280Math.NoPressureWithoutP1 | Core/Src/GAUL_Drivers/BMP280.c:241-244 | P1 = 0 always triggers the zero-division guard |
| Bmp280Math.TemperatureExample | Core/Src/GAUL_Drivers/BMP280.c:204-208 | datasheet example: raw 519888 gives t_fine 128422 and 25.08 °C |
| Bmp280Math.TemperatureExampleVar1 | Core/Src/GAUL_Drivers/BMP280.c:204 | its var1 is 128793 |
| Bmp280Math.TemperatureExampleVar2 | Core/Src/GAUL_Drivers/BMP280.c:205 | its var2 is -371 |
| Bmp280Math.DivisorExample | Core/Src/GAUL_Drivers/BMP280.c:240-241 | the example's divisor is 597560748 |
| Bmp280Math.OffsetExample | Core/Src/GAUL_Drivers/BMP280.c:237-239 | the example's offset is 98104795527812 |
| Bmp280Math.EstimateExample | Core/Src/GAUL_Drivers/BMP280.c:245-246 | the example's first estimate is 6600644165 |
| Bmp280Math.RefinedExample | Core/Src/GAUL_Drivers/BMP280.c:247-249 | the refined value is 25767233 |
| Bmp280Math.PressureExample | Core/Src/GAUL_Drivers/BMP280.c:236-250 | the example pressure is 25767233 / 256 Pa |
| Bmp280Driver.Attempts | Core/Src/GAUL_Drivers/BMP280.c:94-117 | a sequence of n bus calls that stops at the first failure makes at most n calls |
| Bmp280Driver.AttemptsStop | Core/Src/GAUL_Drivers/BMP280.c:94-117 | all n calls are made when all succeed; otherwise the calls stop right after the first failure |
| Bmp280Driver.AttemptsOfThree | Core/Src/GAUL_Drivers/BMP280.c:94-117 | reset, then CTRL_MEAS, then CONFIG: a failure at step k means exactly k calls |
| Bmp280Driver.Spi.constructor | Core/Src/GAUL_Drivers/BMP280.c:21 | the bus starts with nothing sent and chip select released |
| Bmp280Driver.Spi.Select | Core/Src/GAUL_Drivers/BMP280.c:326 | driving chip select changes only chip select |
| Bmp280Driver.Spi.Transmit | Core/Src/GAUL_Drivers/BMP280.c:330 | a transmit records its frame and consumes one outcome |
| Bmp280Driver.Spi.Receive | Core/Src/GAUL_Drivers/BMP280.c:335 | a successful receive fills the first `size` bytes from the sensor; a failed one leaves the buffer alone |
| Bmp280Driver.Bmp280.constructor | Core/Inc/GAUL_Drivers/BMP280.h:86-93 | a zeroed `BMP280` record |
| Bmp280Driver.ModeFrameBytes | Core/Inc/GAUL_Drivers/BMP280.h:37-68 | low power writes 0xB6 to reset, 0x53 to CTRL_MEAS, 0x30 to CONFIG; any other mode writes 0x57 and 0x10 |
| Bmp280Driver.MeasurementAddresses | Core/Inc/GAUL_Drivers/BMP280.h:26-35 | the read control bytes of the registers the driver reads |
| Bmp280Driver.Driver.constructor | Core/Src/GAUL_Drivers/BMP280.c:20-24 | the driver is bound to a bus and owns a 26-byte receive buffer |
| Bmp280Driver.Driver.Read | Core/Src/GAUL_Drivers/BMP280.c:324-343 | sends the read control byte; returns 0 exactly when both bus calls succeed and then fills `size` bytes and releases chip select; -1 leaves chip select low |
| Bmp280Driver.Driver.Write | Core/Src/GAUL_Drivers/BMP280.c:354-371 | sends [write control byte, value]; 0 exactly when the transmit succeeds |
| Bmp280Driver.Driver.SoftReset | Core/Src/GAUL_Drivers/BMP280.c:305-312 | writes 0xB6 to register 0xE0; chip select is left low exactly when the write fails |
| Bmp280Driver.Driver.SetMode | Core/Src/GAUL_Drivers/BMP280.c:94-120 | sends the mode's frames up to and including the first failed write; 0 exactly when all three succeed; chip select is left low exactly on failure |
| Bmp280Driver.Driver.ReadCalibrationData | Core/Src/GAUL_Drivers/BMP280.c:130-149 | reads 26 bytes from 0x88; on success the calibration is `CalibrationOf` the first 24, and on failure it is unchanged |
| Bmp280Driver.Driver.ReadTemperature | Core/Src/GAUL_Drivers/BMP280.c:192-212 | 0 exactly when the read succeeds and the reading is not 0x80000; then t_fine and °C follow the compensation, otherwise both are kept |
| Bmp280Driver.Driver.ReadPressure | Core/Src/GAUL_Drivers/BMP280.c:224-255 | 0 exactly when the read succeeds, a measurement exists and the divisor is non-zero; then the pressure is the Q24.8 value / 256 |
| Bmp280Driver.Driver.ReadAltitude | Core/Src/GAUL_Drivers/BMP280.c:268-280 | reads temperature, then pressure only if the temperature succeeded; the temperature is updated exactly when the temperature read succeeds; on success the altitude is computed from the new pressure and the reference; on failure the pressure and the altitude are kept |

## Left out

- The STM32 HAL is not modelled as code. SPI transmit and receive, UART receive interrupts, GPIO
  chip select and `HAL_Delay` become a scripted bus (`Bmp280Driver.Spi`) and method parameters (the
  UART instance and byte given to `RxCallback`). Timeouts are not modelled.
- Interrupts and concurrency are left out. `RxCallback` and `Read` are atomic methods of one
  object, so the race between the callback and a `Read` in progress is not modelled.
- The ring buffer's code is not part of this model. The FIFO is a sequence with a capacity and an
  overflow policy given at construction. Its index arithmetic and storage array are left out.
- Floating point is left out. `float` fields are exact reals (`temp_C = T / 100`,
  `press_Pa = p / 256`, and `atof` yields the exact decimal value), so rounding to single
  precision is not modelled.
- `BMP280_PressureToAltitude` is left out because it uses `pow` on floats. `ReadAltitude` records
  the pressure and reference pressure the altitude is computed from (`altitudeFrom`).
- `BMP280_MeasureReference` is left out. It averages float pressures in a loop with delays.
- `BMP280_Init` is left out:
  - its dummy SPI byte;
  - the device-ID check;
  - its clamping of the reference pressure to 90000..110000 Pa.

  The operations it sequences are modelled.
- `L76LM33_Init` and `L76LM33_SendCommand` are left out. They only send fixed PMTK strings
  through the HAL.
- The `strndup` and `free` memory management is left out. The copy in `NMEA_ParseRMC` leaks on its
  early `return -1` paths, which has no effect on results. A failed `strndup` (the -1 at
  `NMEA.c:54-56`) cannot happen in the model.
- The NMEA checksum is left out. The code never checks it.
- The debug test files are left out. They only toggle pins and print.
- Nmea.GpsData / Nmea.Gps: `seconds`, `latitude` and `longitude` are exact reals rather than
  `float`.
- Bmp280Math.TFine / Bmp280Math.Pressure: signed overflow, which is undefined in C, is modelled as
  two's-complement wrap-around, as the target's compiler produces. Wrap-freedom is proved only near
  the calibration point (`TFineExact`).
- Bmp280Math.TemperatureRounds: the rounding statement assumes t_fine within ±2^28, where
  `t_fine * 5 + 128` cannot wrap.
- CNumbers.Atof: hexadecimal floats are read, but `inf`, `nan` and locale-specific decimal points
  are not.
- Bmp280Driver.Driver.ReadAltitude: `alt_m` is represented by the pair it would be computed from.
  The altitude value itself is not computed, because `pow` is left out.
