# Models and proofs for the hard algorithms of the library

This Dafny project models, and proves correct, the parts of the library whose code is furthest from its meaning: fast
group exponentiation, the JSON reader and writer, the bit-level codecs, the streaming authentication code, Adler-32
and the lock-free creation of singletons. Code that changes things step by step is a method or a class with the
source's own fields and loops, proved against a specification function; the properties the code is for are lemmas
about those functions, for all inputs.

| files | what they model | main results |
|---|---|---|
| `Groups`, `Bits`, `WindowSlider`, `SimultaneousMultiply`, `CascadeMultiply`, `TermHeap`, `GeneralCascade` | `cryptopp/algebra.cpp` over any abelian group | the three fast multiplications compute e·x, e1·x + e2·y and Σ eᵢ·bᵢ |
| `EuclideanDomain`, `Euclid`, `PolynomialsMod2`, `Integers` | Gcd and the inverse in a quotient ring over any Euclidean domain, and `PolynomialMod2` as one | the greatest common divisor as a combination; exactly when the inverse is found |
| `NumberTheory`, `BlumBlumShub` | `cryptopp/blumshub.cpp` | a generator that seeks gives the bytes of one that does not |
| `Utf8`, `Numbers`, `JsonValue`, `JsonGrammar`, `JsonParser`, `JsonWriter`, `JsonText`, `JsonGaps`, `JsonNumbers`, `JsonEnds`, `JsonReading`, `JsonEscapes`, `JsonOutput`, `JsonStrings`, `JsonRoundTrip` | the JSON parser and writer, string escapes, numbers as text | for every tree and all options, exactly when what is written is read back as it was |
| `Utf8`, `Utf16`, `AsciiScan` | UTF-8 and UTF-16 conversion | the reader accepts exactly RFC 3629; both conversions invert each other exactly on well-formed text |
| `Buffered`, `BerCoding`, `BerStreams`, `DerReencode` | `cryptopp/asn.cpp`, part of `cryptopp/asn.h` | decoding undoes encoding; what DERReencode accepts, and what it makes of it |
| `Chunks`, `BaseNCode`, `BaseNFilters`, `Base64` | `cryptopp/basecode.cpp` | decoding undoes encoding and grouping, for every width and chunking |
| `Cmac`, `AuthenticatedCipher` | `cryptopp/cmac.cpp`, `cryptopp/authenc.cpp` | every chunking gives the one-shot MAC; both ends authenticate the same bytes |
| `Adler32` | `cryptopp/adler32.cpp` | delayed reductions never overflow and change nothing |
| `Singleton` | `Singleton::get`, `WaitForInstance` | one object, whatever the interleaving |

## How the model is made

* Words of the source are integers with their bound stated; wrap-around, truncation and narrowing are written out
  where they can happen. Bit masks are bit-vectors where the masks are the point (the ASCII scan, MulU) and `/` and
  `%` elsewhere.
* A group is a value with three functions and `IsAbelian` states its laws, so each result holds in every abelian
  group. `Mul(g, n, x)` is n·x. A Euclidean domain is a value of the same kind, with `IsEuclidean` for its laws: a
  commutative ring with division whose norm falls with every remainder and does not fall with products. A block cipher
  is any function that keeps the block size, and the cipher inside an authenticated mode is any stream of byte
  functions.
* `JsonParsing.JsonParser` reads its input with one NUL behind it, as the code does. The grammar it is proved against
  (`JsonGrammar`) is made of functions on what is left of the input, and has no cursor. `JsonTexts` builds texts the
  other way, as RFC 8259 does, and says what each means: numbers as sums of their digits' worth, characters by the
  units of RFC 2781. The grammar reads every such text as what it means, and the writer writes such texts.
* What a method computes and the function it is proved against could be wrong together. So each encoding is also tied
  to its standard in plain arithmetic: bit by bit for the generator, the base-N code and polynomial addition, octet by
  octet for lengths, object identifiers and Adler-32, and by the order of code points for UTF-8.
* A `BufferedBytes.Buffered` is a queue, or a decoder that reads through another one. Reading from a decoder takes the
  same bytes off everything below it.
* Singleton's threads take one step at a time in any order; a step is one load, exchange, call or store.

## Where the code differs from what a reader may expect

* **JSON strings.** A string survives exactly when it is well-formed UTF-8 of characters `IsValidCharacter` accepts
  and has no U+0000: the writer spells that character `\u0000`, and the parser appends the result of decoding it as a
  C string, which is empty (`JsonRoundTrip.NulIsLost`).
* **JSON doubles.** The writer gives a double six decimals, so it comes back exactly when it is the double nearest to
  them; what is below half a millionth comes back as zero (`JsonRoundTrip.SmallIsLost`). With
  OPTIONS_OMIT_DOUBLE_TYPE_PRESERVATION an integral double comes back as an integer (`JsonRoundTrip.TypeIsLost`), or
  beyond the int type as a double again; and for 2⁶³, which the range check lets through, the cast to int64_t is
  undefined, so its result is a parameter. `JsonRoundTrip.RoundTrip` is an if-and-only-if with exactly these
  conditions, no binary values and at most 99 nested containers.
* **Comments.** `EatComment` steps over a slash that starts no comment; the parser then goes on behind it. The grammar
  says the same.
* **Escapes.** `\x` and `\u` hand their digits to the general hexadecimal conversion, so a sign in front of them is
  accepted, and by `\u` an `0x` too. The model calls the same conversion.
* **Object identifiers.** The first two values share one byte, so decoding undoes encoding exactly when the second is
  below 40 and 40·v0 + v1 is at most 255 (`BerCoding.OidRoundTrip`).
* **Blum Blum Shub.** Seeking gives the right bytes for every seed, not only for seeds coprime to the modulus, since
  the reduced exponent is never 0 (`BlumBlumShubGenerator.NeverReducedToZero`).
* **Conversion lengths.** `ConvertUnicode` narrows the length to 32 bits. From 2³¹ units on it sees another, shorter
  text or none; `Utf16.Seen` is what it sees. `Utf16.LongTextIsLost` is the first such text, and the round trips of
  the conversions themselves hold exactly for ASCII of any length and for well-formed text below that bound, the UTF-8
  in between included.
* **Inverses.** `QuotientRing::MultiplicativeInverse` compares its slots with `QuotientRing::Equal`, which reduces
  modulo the modulus first. So an element larger than the modulus stops the loop at once, and zero comes back even
  where there is an inverse: x² + 1 modulo x over the field of two elements (`PolynomialsMod2.InverseIsMissed`). The
  inverse of a polynomial is found exactly when element and modulus are coprime and the element is no larger, or the
  modulus is a unit. A zero modulus raises DivideByZero. `GF2NP` compares plainly instead, and then the inverse is
  found exactly when the two are coprime, for elements of any size; its assertion that elements are reduced guards
  against misuse only.
* **Singletons.** If `New` returns null, the next caller runs it again, and if it returns the marker its maker returns
  it and nobody else ever returns (`SingletonProtocol.OnlyTheMakerReturns`).
  `SingletonProtocol.CorrectIffNeitherNullNorMarker` makes this exact.
* **Message length.** `ProcessData` adds to the running length before it rejects the call, and the running length
  wraps at 2⁶⁴, so only below that does it not matter how a message is cut (`AuthenticatedEncryption.LimitOfWhole`).
* **Messages without a call.** A run that never calls `ProcessData` has no message for a footer to follow: its footer
  data is authenticated as header data (`AuthenticatedEncryption.Run`).
* **Failed re-encoding.** When `DERReencode` fails, the destructors of the encoders still put out what there is, level
  by level, as if it were whole, and those of the decoders still take up to two bytes each. The model's result says
  both.

## Model

| member | source | states |
|---|---|---|
| SlidingWindow.WindowSlider.constructor | cryptopp/algebra.cpp:208-218 | a new slider has the windows of the whole exponent still to give, with the source's window size of 1 to 7 when none is asked for |
| SlidingWindow.WindowSlider.FindNextWindow | cryptopp/algebra.cpp:220-247 | one call gives the next window of the recoding of what is left, or finds there is none; the carry into the exponent loses nothing |
| SlidingWindow.RecodeValue | cryptopp/algebra.cpp:220-247 | the windows' signed digits, each shifted to where its window begins, add up to the exponent |
| SlidingWindow.RecodeWellSpaced | cryptopp/algebra.cpp:220-247 | digits are odd and below 2^windowSize in size, negative only with fast negation, windows do not overlap, and no window begins beyond the exponent's value |
| SlidingWindow.HighIsSmaller | cryptopp/algebra.cpp:235-246 | taking a window off makes the exponent smaller, even after the carry |
| SimultaneousMultiplication.RunningSumIsOddSum | cryptopp/algebra.cpp:303-312 | twice the sum of suffix sums plus the last suffix sum is Σ (2j+1)·c_j |
| SimultaneousMultiplication.CombineBuckets | cryptopp/algebra.cpp:301-312 | collapsing buckets that hold c_j times the base gives Σ (2j+1)·c_j times the base |
| SimultaneousMultiplication.SimultaneousMultiply | cryptopp/algebra.cpp:255-314 | result k is exponent k times the base, for every group, list of exponents and choice of fast negation |
| SimultaneousMultiplication.ScalarMultiply | cryptopp/algebra.cpp:90-95 | a single multiplication by the same method gives exponent times base |
| CascadeMultiplication.BuildPowerTable | cryptopp/algebra.cpp:104-129 | every table entry with an odd index on either side is filled, and entry (i, j) is i·x + j·y |
| CascadeMultiplication.Strip | cryptopp/algebra.cpp:142-151 | common factors of two move from before the addition to after it: the squarings add up, the windows keep their value, one is odd, and the count never goes below 0 |
| CascadeMultiplication.LookUp | cryptopp/algebra.cpp:152-163 | an entry read has an odd index, so it was filled, and is the combination it stands for |
| CascadeMultiplication.Flush | cryptopp/algebra.cpp:142-166 | a flush turns a·x + b·y into the combination with the bits just read appended to a and b |
| CascadeMultiplication.CascadeScalarMultiply | cryptopp/algebra.cpp:97-170 | the result is e1·x + e2·y for all exponents and all three window widths |
| TermHeap.RootIsLargest | cryptopp/algebra.cpp:184-189 | the first of a heap has the largest exponent in it |
| TermHeap.MakeHeap | cryptopp/algebra.cpp:184 | the whole range becomes a heap of the same terms |
| TermHeap.PushHeap | cryptopp/algebra.cpp:198 | the last term joins the heap, and no term is lost |
| TermHeap.PopHeap | cryptopp/algebra.cpp:185-199 | the largest term goes to the end and the others stay a heap |
| GeneralCascade.TotalReordered | cryptopp/algebra.cpp:184-199 | heap operations leave Σ eᵢ·bᵢ and the sum of exponents as they were |
| GeneralCascade.DivideStep | cryptopp/algebra.cpp:187-196 | moving the quotient to the next base keeps Σ eᵢ·bᵢ and lowers the sum of exponents, so the loop ends |
| GeneralCascade.Divide | cryptopp/algebra.cpp:189-196 | one round changes the two terms it should, and only those, and keeps the total |
| GeneralCascade.LargestIsOut | cryptopp/algebra.cpp:184-189 | after a pop the term outside is at least as large as the one at the front |
| GeneralCascade.GeneralCascadeMultiplication | cryptopp/algebra.cpp:172-204 | the result is Σ eᵢ·bᵢ of the terms the range began with, for one, two, or more terms |
| Groups.MulDistribute | cryptopp/algebra.cpp:190-196 | n·(x + y) = n·x + n·y in an abelian group, which moving quotients between bases rests on |
| EuclideanDomains.RemainderZero | cryptopp/algebra.h:401-402 | in a Euclidean domain the remainder is zero exactly for multiples, so comparing with zero in the quotient ring is divisibility by the modulus |
| Euclid.Gcd | cryptopp/algebra.cpp:56-68 | over any Euclidean domain the result divides both inputs, is a combination of them, every common divisor divides it, and it is a unit exactly for coprime inputs |
| Euclid.Bezout | cryptopp/algebra.cpp:56-68 | what the slots reach is a common divisor and a combination of the inputs, from any slots that are combinations and share the divisors |
| Euclid.MultiplicativeInverse | cryptopp/algebra.cpp:70-88 | over any Euclidean domain and with either form of the virtual Equal. Compared plainly: an inverse exactly for coprime inputs. Compared modulo the modulus: an exception exactly for modulus zero; an inverse exactly when the two are coprime and no remainder is a multiple of the modulus before one is zero, or the modulus is a unit; so exactly for coprime inputs when the element is no larger and, where division leaves smaller elements alone, only then or for a unit. Zero whenever the result is no inverse |
| Euclid.InverseMeansCoprime | cryptopp/algebra.cpp:70-88 | only elements coprime to the modulus have an inverse at all |
| Euclid.KeepRunning | cryptopp/algebra.cpp:77-85 | each round keeps the norms falling, and with an element larger than the modulus the second round already meets the modulus |
| PolynomialsMod2.PolynomialsAreEuclidean | cryptopp/gf2n.h:205-217 | polynomials modulo 2 satisfy all laws of a Euclidean domain, with the degree for a norm and 1 the only unit, and division leaves smaller ones alone |
| PolynomialsMod2.Multiply | cryptopp/gf2n.cpp:254-265 | shifting and adding from the top bit down computes the product |
| PolynomialsMod2.ProductDegree | cryptopp/gf2n.cpp:254-265 | the degree of a product is the sum of the degrees |
| PolynomialsMod2.XorCoefficient | cryptopp/gf2n.cpp:229-245 | addition adds coefficient by coefficient modulo 2 |
| PolynomialsMod2.TimesPower | cryptopp/gf2n.cpp:254-265 | multiplication by a power of x is a shift |
| PolynomialsMod2.Divide | cryptopp/gf2n.cpp:287-310 | the loop over the dividend's bits computes quotient and remainder, and only a zero divisor raises the exception |
| PolynomialsMod2.DivideByMeans | cryptopp/gf2n.cpp:287-310 | dividend = quotient · divisor + remainder, with a remainder of lower degree than the divisor |
| PolynomialsMod2.PolynomialGcd | cryptopp/gf2n.cpp:520-523 | a common divisor that every common divisor divides, 1 exactly for coprime polynomials |
| PolynomialsMod2.InverseMod | cryptopp/gf2n.cpp:525-529 | an inverse exactly when the polynomial is coprime to the modulus and of no higher degree, or the modulus is 1; otherwise zero |
| PolynomialsMod2.FieldInverse | cryptopp/gf2n.h:294-295 | with the plain Equal of GF2NP an inverse exactly for coprime inputs of any degree, otherwise zero |
| PolynomialsMod2.InverseIsMissed | cryptopp/gf2n.cpp:525-529 | x² + 1 and x are coprime and the result for them is zero, which is no inverse |
| Integers.IntegersAreEuclidean | cryptopp/integer.cpp:4013-4032 | the integers, with remainders that are never negative, are a Euclidean domain too |
| NumberTheory.Fermat | cryptopp/blumshub.cpp:55-62 | a^p is a modulo a prime p |
| NumberTheory.ReduceExponent | cryptopp/blumshub.cpp:55-62 | modulo pq, exponents that differ by a multiple of (p-1)(q-1) give the same power of any base, as long as neither is 0 |
| BlumBlumShubGenerator.SquaringsArePowers | cryptopp/blumshub.cpp:17-26 | squaring j times modulo n is one power to 2^j |
| BlumBlumShubGenerator.PublicBlumBlumShub.constructor | cryptopp/blumshub.cpp:9-15 | a new generator stands at bit 0 of the seed's stream |
| BlumBlumShubGenerator.PublicBlumBlumShub.GenerateBit | cryptopp/blumshub.cpp:17-26 | at bit i of the stream it gives that bit and stands at bit i + 1, also across the lazy squaring |
| BlumBlumShubGenerator.PublicBlumBlumShub.GenerateByte | cryptopp/blumshub.cpp:28-34 | eight bits of the stream, the first highest |
| BlumBlumShubGenerator.PublicBlumBlumShub.GenerateBlock | cryptopp/blumshub.cpp:36-40 | consecutive bytes of the stream |
| BlumBlumShubGenerator.PublicBlumBlumShub.Seek | cryptopp/blumshub.cpp:55-62 | seeking to index k puts the generator at bit 8k of the same stream |
| BlumBlumShubGenerator.BlockIsLowBits | cryptopp/blumshub.cpp:17-26 | the bits of a block, the first highest, spell the low bits of the state |
| BlumBlumShubGenerator.ByteIsSumOfBits | cryptopp/blumshub.cpp:28-34 | the first bit of a byte is worth 128 and the last one |
| BlumBlumShubGenerator.BitOfPower | cryptopp/blumshub.cpp:9-26 | bit i of the stream is bit width - 1 - i % width of the seed to the power 2^(i / width + 2) modulo n |
| BlumBlumShubGenerator.Generate | cryptopp/blumshub.cpp:9-40 | the bytes a new generator puts out, bit by bit powers of the seed |
| BlumBlumShubGenerator.NeverReducedToZero | cryptopp/blumshub.cpp:59 | for distinct primes that are 3 modulo 4 a power of two is never 0 modulo (p-1)(q-1) |
| BlumBlumShubGenerator.SeekReachesBlock | cryptopp/blumshub.cpp:57-60 | the power with the reduced exponent is the state that many squarings reach |
| BlumBlumShubGenerator.SeekMatchesSequential | cryptopp/blumshub.cpp:36-62 | the bytes after Seek(k) are the bytes of a fresh generator from byte k on, for every k, seed and length |
| Utf8.NextCharSafeBody | base/icu_utf.cc:132-225 | behind a lead byte it reads the code point the specification reads, and always ends inside the text and behind where it began |
| Utf8.NextCodePoint | base/icu_utf.h:196-207 | the same from any byte, ASCII included |
| Utf8.AppendUnsafe | base/icu_utf.h:223-241 | writes exactly the encoding of the code point, and nothing else in the buffer changes |
| Utf8.NextOfEncode | base/icu_utf.cc:132-225 | every scalar value's encoding is read back, whatever follows |
| Utf8.NextIsEncoded | base/icu_utf.cc:132-225 | whatever is accepted is the encoding of the scalar value it was read as: no overlong form, surrogate or value beyond 10FFFF |
| Utf8.SequenceByBytes | base/icu_utf.cc:132-225 | the arithmetic tests of the reader accept the byte ranges of section 4 of RFC 3629 |
| Utf8.AcceptsOnlyRfc3629 | base/icu_utf.cc:132-225 | what is accepted matches the grammar of section 4 of RFC 3629 |
| Utf8.AcceptsAllRfc3629 | base/icu_utf.cc:132-225 | whatever matches that grammar is accepted, with its length |
| Utf8.EncodingsAreInOrder | base/icu_utf.h:223-241 | section 1 of RFC 3629: encodings are in the order of their code points |
| Utf8.IllFormedTakes | base/icu_utf.cc:132-225 | an ill-formed sequence is a single byte, or a lead byte and all the trail bytes behind it that it asks for |
| Utf8.LessIsLexicographic | base/values.h:210 | strings compare by the first byte in which they differ, as an unsigned number |
| Utf8.ReadUnicodeCharacter | base/utf_string_conversion_utils.cc:13-30 | reads one character, leaves the index on its last unit, and succeeds exactly on scalar values |
| Utf16.ReadUnicodeCharacter16 | base/utf_string_conversion_utils.cc:32-54 | the same for UTF-16, surrogate pairs included |
| Utf16.WriteUnicodeCharacter8 | base/utf_string_conversion_utils.cc:69-88 | appends the UTF-8 encoding and says how long it is |
| Utf16.WriteUnicodeCharacter16 | base/utf_string_conversion_utils.cc:90-101 | appends the UTF-16 encoding and says how long it is |
| Utf16.Encode16IsRfc2781 | base/utf_string_conversion_utils.cc:90-101 | the units of a character are those of section 2.1 of RFC 2781 |
| Utf16.NextOfEncode16 | base/utf_string_conversion_utils.cc:32-54 | every scalar value's one or two units are read back, whatever follows |
| Utf16.NextIsEncoded16 | base/utf_string_conversion_utils.cc:32-54 | what is read without error is the encoding of the value it was read as |
| Utf16.ConvertUnicode8 | base/utf_string_conversions.cc:24-42 | appends the UTF-16 text of the UTF-8 it sees, errors replaced by FFFD, and succeeds exactly when there was no error |
| Utf16.ConvertUnicode16 | base/utf_string_conversions.cc:24-42 | the same from UTF-16 to UTF-8 |
| Utf16.UTF8ToUTF16 | base/utf_string_conversions.cc:147-155 | the conversion with its ASCII short cut; success exactly for ASCII, or when the text that is seen is well-formed |
| Utf16.UTF16ToUTF8 | base/utf_string_conversions.cc:170-178 | the same the other way |
| Utf16.ReadsWellIffWellFormed8 | base/utf_string_conversions.cc:24-42 | the reader meets no error exactly on text that is well-formed by section 4 of RFC 3629 |
| Utf16.ReadsWellIffWellFormed16 | base/utf_string_conversions.cc:24-42 | the reader meets no error exactly when every surrogate has its partner, section 2.2 of RFC 2781 |
| Utf16.OutputIsWellFormed | base/utf_string_conversions.cc:24-42 | both conversions produce well-formed text from any input |
| Utf16.IllFormedIsReplaced | base/utf_string_conversions.cc:24-42 | what cannot be read becomes U+FFFD in the output, sequence by sequence |
| Utf16.ReadIsConverted | base/utf_string_conversions.cc:24-42 | what is read becomes the encoding of the same character |
| Utf16.RoundTrip8 | base/utf_string_conversions.cc:24-42 | the loops on whole texts: UTF-8 to UTF-16 and back is the identity exactly on well-formed UTF-8 |
| Utf16.RoundTrip16 | base/utf_string_conversions.cc:24-42 | the loops on whole texts: UTF-16 to UTF-8 and back is the identity exactly on well-formed UTF-16 |
| Utf16.ShortCutAgrees | base/utf_string_conversions.cc:147-178 | with the ASCII short cut or without, the result is the same for texts below 2^31 units |
| Utf16.LongTextIsLost | base/utf_string_conversions.cc:30 | of 2^31 units with one that is not ASCII nothing is converted |
| Utf16.ConversionsRoundTrip8 | base/utf_string_conversions.cc:147-178 | UTF8ToUTF16 and back is the identity exactly on ASCII, and on well-formed UTF-8 below 2^31 bytes |
| Utf16.ConversionsRoundTrip16 | base/utf_string_conversions.cc:147-178 | UTF16ToUTF8 and back is the identity exactly on ASCII, and on well-formed UTF-16 below 2^31 units whose UTF-8 is below 2^31 bytes |
| Utf16.ThereAndBack8 | base/utf_string_conversions.cc:147-178 | the same of the two methods, one after the other |
| Utf16.ThereAndBack16 | base/utf_string_conversions.cc:147-178 | the same of the two methods, the other way |
| AsciiScan.IsStringAscii8 | base/macros.cc:238-266 | the word-at-a-time scan of bytes, at every alignment, in words of four or eight bytes and either byte order, is the test that each is below 80 hexadecimal |
| AsciiScan.IsStringAscii16 | base/macros.cc:238-266 | the same for 16-bit units |
| Numbers.WriteDigits | base/string_number_conversions.cc:77-84 | the digits fill the end of the buffer and never reach its first slot |
| Numbers.IntToString | base/string_number_conversions.cc:60-92 | the text of every value of a 32- or 64-bit type, its minimum included, in a buffer of three characters a byte |
| Numbers.TextRoundTrip | base/string_number_conversions.cc:60-275 | reading the text of a value gives the value, for every value of every type |
| Numbers.InvokeDigits | base/string_number_conversions.cc:207-275 | the digit loop gives the value, or saturates, as the specification says; every value it stores on the way fits the type |
| Numbers.TakeDigit | base/string_number_conversions.cc:232-239 | one step succeeds exactly when value · base + digit fits, and stores that or the limit; the product and the sum are each shown to fit before they are stored |
| Numbers.Invoke | base/string_number_conversions.cc:172-199 | white space, sign and digits together |
| Numbers.ConvertsExactly | base/string_number_conversions.cc:172-275 | conversion succeeds exactly on an optional sign, no minus for unsigned types, and digits whose value fits the type |
| Numbers.OverflowIsExact | base/string_number_conversions.cc:245-275 | the division tests reject a step exactly when its result would not fit, and where they pass the product in between fits too |
| Numbers.OverflowSaturates | base/string_number_conversions.cc:207-275 | a number outside the type becomes the limit of the type on its side, and the conversion fails |
| JsonParsing.StringBuilder.Append | base/json_parser.cc:310-318 | the view of the input or the copy grows by the character, and a view stays a view |
| JsonParsing.StringBuilder.AppendString | base/json_parser.cc:320-323 | the copy grows by the text |
| JsonParsing.StringBuilder.Convert | base/json_parser.cc:325-329 | making the copy leaves the string as it was |
| JsonParsing.StringBuilder.AsString | base/json_parser.cc:335-339 | gives the string eager decoding would have built |
| JsonParsing.JsonParser.EatComment | base/json_parser.cc:427-458 | stops where a comment ends, and says whether there was one; the cursor keeps its distance to the start |
| JsonParsing.JsonParser.EatWhitespaceAndComments | base/json_parser.cc:403-425 | ends on the first byte that is neither blank nor comment |
| JsonParsing.JsonParser.GetNextToken | base/json_parser.cc:360-401 | skips to the next token and names it |
| JsonParsing.JsonParser.DecodeUTF16 | base/json_parser.cc:735-801 | one escape or a surrogate pair of escapes becomes its UTF-8 bytes; a lone or badly paired surrogate is refused |
| JsonParsing.JsonParser.ConsumeStringRaw | base/json_parser.cc:606-732 | delivers the decoded string and leaves the cursor on the closing quote with cursor and index in step, or reports the error the grammar names |
| JsonParsing.JsonParser.ReadIntDigits | base/json_parser.cc:897-914 | reads exactly the digits and refuses a leading zero when told to |
| JsonParsing.JsonParser.ConsumeNumber | base/json_parser.cc:821-895 | despite reading ahead, delivers the number and ends on its last byte |
| JsonParsing.JsonParser.ConsumeLiteral | base/json_parser.cc:916-955 | delivers null, true or false and ends on the last byte, or fails |
| JsonParsing.JsonParser.ConsumeList | base/json_parser.cc:548-589 | delivers what the grammar says of a list at this depth and restores the depth on every path |
| JsonParsing.JsonParser.ConsumeDictionary | base/json_parser.cc:484-546 | the same of a dictionary, in which the last of equal keys wins |
| JsonParsing.JsonParser.ParseValue | base/json_parser.cc:460-482 | any value: result, cursor, depth and error code are the grammar's, and reading ends |
| JsonParsing.JsonParser.ParseInput | base/json_parser.cc:206-271 | the whole parse of any input gives the grammar's value or its error, byte order mark and trailing text included |
| JsonValues.SetKeepsOrder | base/values.cc:441-444 | setting a key keeps the dictionary ordered and replaces exactly that key's entry |
| JsonWriting.JsonWriter.IndentLine | base/json_writer.cc:204-206 | three spaces for each level |
| JsonWriting.JsonWriter.EscapeJSONString | base/string_escape.cc:79-126 | stops the program exactly for texts longer than an int32 can count; otherwise appends the escaped text in quotes and reports exactly the texts with ill-formed bytes |
| JsonWriting.JsonWriter.AppendEscaped | base/string_escape.cc:98-119 | one character: by letter, as four hexadecimal digits for the other control characters, `<` and two separators, or as its UTF-8 bytes |
| JsonWriting.JsonWriter.BuildDouble | base/json_writer.cc:79-109 | an integral double up to 2⁶³ as an integer where types need not be preserved, any other with six decimals; the fix-ups of the text never apply |
| JsonWriting.JsonWriter.BuildJSONString | base/json_writer.cc:56-202 | appends the text of any tree with any options; reports failure exactly for binary values that are not to be omitted, and stops exactly where a text it has to write is too long |
| JsonWriting.WriteJson | base/json_writer.cc:31-45 | the same of the whole text, with the line ending of the pretty layout |
| JsonGaps.SkipGap | base/json_parser.cc:403-458 | any mix of blanks, line comments and block comments is skipped and nothing else |
| JsonGaps.LoneSlash | base/json_parser.cc:427-458 | a slash that starts no comment is stepped over and nothing behind it |
| JsonGaps.OpenCommentIsSkipped | base/json_parser.cc:427-458 | a line comment that does not end takes the rest of the input |
| JsonReading.ReadPiece | base/json_parser.cc:606-732 | every way RFC 8259 has to write a character, and the two of the parser's own, is read as that character; noncharacters are refused |
| JsonReading.ReadPair | base/json_parser.cc:735-801 | two escapes of the UTF-16 units of a character, section 2.1 of RFC 2781, in digits of either case, are read as its UTF-8 |
| JsonReading.LoneSurrogate | base/json_parser.cc:735-801 | an escaped trail surrogate, or a lead one that no escape follows, is refused |
| JsonReading.ReadPieces | base/json_parser.cc:606-732 | a string is read as what its characters say, up to the closing quote |
| JsonNumbers.ReadNumber | base/json_parser.cc:821-895 | a number of section 6 of RFC 8259 is read as the int it is, and otherwise as the double nearest to the sum of its digits' worth times its power of ten |
| JsonReading.ReadText | base/json_parser.cc:460-589 | every JSON text, with gaps, comments and trailing commas anywhere they may be, is read as what it means or refused with the first error in it |
| JsonReading.ParseDocument | base/json_parser.cc:206-271 | the parse of any document, with or without a byte order mark, is what its root means |
| JsonEscapes.EscapeIsPiece | base/string_escape.cc:79-126 | what is written for a character is one of the ways RFC 8259 has to write it |
| JsonEscapes.WrittenIsEscaped | base/string_escape.cc:79-126 | in the text of any string every backslash starts one of the escapes the writer has, and nothing that needs one is bare |
| JsonEscapes.NoBareSpecials | base/string_escape.cc:79-126 | the text of any string holds no `<` and no byte below a space |
| JsonEscapes.NoSeparators | base/string_escape.cc:65-72 | the text of any string holds neither U+2028 nor U+2029 |
| JsonEscapes.OthersStandAsTheyAre | base/string_escape.cc:102-119 | any character that is none of the special ones stands there in its own UTF-8 |
| JsonEscapes.IllFormedIsReplaced | base/string_escape.cc:91-95 | ill-formed bytes are written as U+FFFD |
| JsonOutput.WritesText | base/json_writer.cc:56-202 | the text of any tree is the JSON text TextOf builds: in the pretty layout three blanks of indentation for each dictionary and a line for each member |
| JsonStrings.ReadEscapedText | base/string_escape.cc:79-126 | what the escaper writes the string reader decodes to the repaired text without U+0000, or refuses for a character it does not accept |
| JsonStrings.SurvivesIffWellFormed | base/string_escape.cc:79-126 | a string is read and unchanged exactly when it is well-formed UTF-8 of accepted characters other than U+0000 |
| JsonRoundTrip.MeansReread | base/json_parser.cc:460-482 | the text written for a value means what Reread says of it, at any depth |
| JsonRoundTrip.WritesDocument | base/json_writer.cc:31-45 | what is written is a whole JSON document without a byte order mark |
| JsonRoundTrip.SoundIsKept | base/json_parser.cc:484-589 | a value of clean strings without binary values that nests within the limit is kept exactly when its doubles are |
| JsonRoundTrip.ReadIsIntact | base/json_parser.cc:484-589 | whatever is read back has clean strings and nests within the limit |
| JsonRoundTrip.ParseWritten | base/json_parser.cc:206-271 | parsing a written document gives what Reread says, for every tree without binary values |
| JsonRoundTrip.ParsedIsProper | base/json_parser.cc:206-271 | whatever is parsed, from any input, has no binary values and its dictionaries are in order |
| JsonRoundTrip.RoundTrip | base/json_parser.cc:206-271 | for every tree and all options Parse(Write(v)) is v exactly when there are no binary values, all strings and keys are clean, at most 99 containers nest and every double is the one nearest to what was written of it |
| JsonRoundTrip.OmittedRoundTrip | base/json_writer.cc:126-129 | where binary values are omitted, what is parsed is the tree without them, exactly when that tree survives |
| JsonRoundTrip.RoundsToNearest | base/json_writer.cc:90 | the six decimals are those nearest to the double, with the even one of two |
| JsonRoundTrip.ShortDoubleSurvives | base/json_writer.cc:90-98 | a double with at most six decimals comes back, unless it is written as an integer |
| JsonRoundTrip.SmallIsLost | base/json_writer.cc:90-98 | a double of up to half a millionth comes back as zero |
| JsonRoundTrip.TypeIsLost | base/json_writer.cc:83-89 | without type preservation an integral double in the range of an int comes back as an integer |
| JsonRoundTrip.NulIsLost | base/json_parser.cc:735-801 | the one-character string U+0000 comes back empty |
| JsonRoundTrip.WriteAndParse | base/json_parser.cc:206-271 | the same equivalence of the writer's and the parser's own code, for texts the writer does not stop at, with what the writer reports |
| BerStreams.DERLengthEncode | cryptopp/asn.cpp:17-36 | puts the short or the long form of the length and says how many bytes |
| BerStreams.BERLengthDecode | cryptopp/asn.cpp:39-74 | reads what the specification reads, indefinite, cut off and overflowing lengths included, and takes exactly those bytes |
| BerCoding.LengthRoundTrip | cryptopp/asn.cpp:17-74 | every 64-bit length is read back and its bytes alone are used: no guard rejects it |
| BerCoding.DerLengthForm | cryptopp/asn.cpp:17-36 | section 8.1.3 of X.690: one octet below 128, otherwise 0x80 and the number of the octets that spell the length, without a leading zero |
| BerCoding.FromBytesJoin | cryptopp/asn.cpp:39-74 | octets are read most significant first |
| BerCoding.DerLengthIsShortest | cryptopp/asn.cpp:17-74 | no encoding of a length that is accepted is shorter, section 10.1 of X.690 |
| BerStreams.EncodeValue | cryptopp/asn.cpp:219-224 | writes the base-128 digits from the highest group that is not 0 |
| BerStreams.DecodeValue | cryptopp/asn.cpp:226-243 | reads a value or fails where 32 bits would overflow or the input ends |
| BerCoding.ValueRoundTrip | cryptopp/asn.cpp:219-243 | every 32-bit value is read back, anywhere in the input |
| BerCoding.ValueBytesForm | cryptopp/asn.cpp:219-224 | section 8.19.2 of X.690: base 128, most significant first, the high bit on all octets but the last, no leading 0x80 |
| BerStreams.ObjectId.DEREncode | cryptopp/asn.cpp:245-255 | puts tag, length and all the values |
| BerStreams.ObjectId.BERDecode | cryptopp/asn.cpp:257-284 | reads exactly one identifier, or fails as specified |
| BerCoding.OidRoundTrip | cryptopp/asn.cpp:245-284 | an identifier is read back exactly when its first two values fit their shared byte |
| BerStreams.DEREncodeUnsigned | cryptopp/asn.h:441-466 | puts the tag, the length and the shortest content of the integer, from a buffer one byte wider than the word |
| BerStreams.BERDecodeUnsigned | cryptopp/asn.h:477-510 | reads a number of the word's width inside the bounds, or fails as specified |
| BerCoding.UnsignedIsMinimal | cryptopp/asn.h:453-461 | the content spells the number, is not negative, and has no octet to spare, section 8.3 of X.690 |
| BerCoding.UnsignedRoundTrip | cryptopp/asn.h:441-510 | every number of any word width is read back when it is in bounds, and refused when it is not |
| BufferedBytes.Buffered.Transfer | cryptopp/asn.cpp:461-486 | reading through nested decoders takes the same bytes off each, and never more than a definite length has left |
| BufferedBytes.Buffered.PeekBytes | cryptopp/asn.cpp:470-475 | copying sees no more than can be read and takes nothing |
| DerReencoding.OpenDecoder | cryptopp/asn.cpp:393-404 | reads tag and length, and opens a decoder exactly for the tag asked for and a readable length |
| DerReencoding.EndReached | cryptopp/asn.cpp:419-428 | at the end: the definite length is used up, or two zero octets come next |
| DerReencoding.MessageEnd | cryptopp/asn.cpp:445-459 | succeeds exactly at the end, and takes the two zero octets |
| DerReencoding.EncoderMessageEnd | cryptopp/asn.cpp:513-520 | puts tag, definite length and everything collected |
| DerReencoding.DERReencode | cryptopp/asn.cpp:202-217 | terminates; takes off the source and puts out exactly what is specified, on success the element and its re-encoding, on failure what the destructors leave |
| DerReencoding.ReencodesElement | cryptopp/asn.cpp:202-217 | every well-formed element becomes one definite element of shortest length, indefinite levels replaced by their re-encoded children |
| DerReencoding.OnlyElements | cryptopp/asn.cpp:202-217 | whatever is accepted is such an element, and its bytes alone are used |
| DerReencoding.ConstructedBit | cryptopp/asn.cpp:402 | bit 6 of the tag says whether an element is constructed |
| DerReencoding.CutOffElement | cryptopp/asn.cpp:202-217 | an element that is cut off is taken to its end and what there is of it put out as if it were whole |
| DerReencoding.ErrorInside | cryptopp/asn.cpp:202-217 | an error inside an indefinite length: what was put out is wrapped all the same and up to two more bytes are taken |
| DerReencoding.Idempotent | cryptopp/asn.cpp:202-217 | re-encoding the result again changes nothing |
| CmacMode.MulU | cryptopp/cmac.cpp:11-41 | what the loop leaves of a block of any length, the first byte of an odd one untouched; an error exactly when a carry comes out of a length without a polynomial |
| CmacMode.MulUDoubles | cryptopp/cmac.cpp:11-41 | on blocks of an even number of bytes that is doubling |
| CmacMode.DoubleIsTimesX | cryptopp/cmac.cpp:11-41 | each coefficient of the double is that of multiplication by x modulo the field polynomial, section 5.3 of NIST SP 800-38B for 64 and 128 bits |
| CmacMode.Cmac.UncheckedSetKey | cryptopp/cmac.cpp:43-56 | the subkeys are MulU of the encrypted zero block, once and twice; for blocks of an even number of bytes those of section 6.1 of NIST SP 800-38B |
| CmacMode.Cmac.Update | cryptopp/cmac.cpp:58-101 | the message grows by the input, for every chunking, with the last whole block held back |
| CmacMode.Cmac.TruncatedFinal | cryptopp/cmac.cpp:103-122 | the result is the front of the one-shot MAC of all the input, and the next message starts empty |
| CmacMode.Cmac.AdvancedProcessBlocks | cryptopp/cryptlib.cpp:178-227 | with the flags CMAC gives, all whole blocks are chained and what is left over is counted |
| CmacMode.Keyed.MacSplits | cryptopp/cmac.cpp:58-122 | the MAC of blocks and a last part is the final step on the chained blocks, the empty message and exact multiples included |
| CmacMode.MacOfStandard | cryptopp/cmac.cpp:103-122 | section 6.2 of SP 800-38B: a whole last block takes the doubled zero encryption, a short one is filled up with 0x80 and zeros and takes the twice doubled one |
| AuthenticatedEncryption.AuthenticatedCipher.AuthenticateData | cryptopp/authenc.cpp:11-46 | blocks hooked so far and bytes buffered are together exactly the data, less than a block of it buffered |
| AuthenticatedEncryption.AuthenticatedCipher.SetKey | cryptopp/authenc.cpp:48-60 | a missing IV or one of a wrong length is refused with the key already set; a given one starts an empty message, and a null one leaves just the key |
| AuthenticatedEncryption.AuthenticatedCipher.Restart | cryptopp/authenc.h:37 | gives up the current message and keeps the key, and does nothing before a key is set |
| AuthenticatedEncryption.AuthenticatedCipher.Resynchronize | cryptopp/authenc.cpp:62-73 | starts an empty message once a key is set and the IV has a valid length; refused before, and a wrong length ends the old message |
| AuthenticatedEncryption.AuthenticatedCipher.Update | cryptopp/authenc.cpp:75-102 | data goes to header or footer by stage, the confidential part is closed first, and calls before a nonce are refused |
| AuthenticatedEncryption.AuthenticatedCipher.ProcessData | cryptopp/authenc.cpp:104-134 | input and output grow by the transformed data, the header is closed first, and exactly the calls too long or out of order are refused and change nothing more |
| AuthenticatedEncryption.AuthenticatedCipher.ProcessMessage | cryptopp/authenc.cpp:121-130 | the side that is authenticated is the one the mode names, before or after the transformation |
| AuthenticatedEncryption.AuthenticatedCipher.TruncatedFinal | cryptopp/authenc.cpp:136-176 | the three hooks have then run once each, in order, with the whole header, message and footer |
| AuthenticatedEncryption.BothEndsAgree | cryptopp/authenc.cpp:104-176 | the transcript of hooks over a message and over its ciphertext is the same, whichever side the mode authenticates |
| AuthenticatedEncryption.TranscriptMeans | cryptopp/authenc.cpp:121-130 | in either direction the confidential part is the plaintext for the modes that authenticate it and the ciphertext for the others |
| AuthenticatedEncryption.LimitOfWhole | cryptopp/authenc.cpp:106-108 | below 2^64 bytes the running length passes its limit for every chunking or for none |
| AuthenticatedEncryption.Run | cryptopp/authenc.cpp:62-176 | from IV to MAC in whatever chunks: how it ends, and when it gets to the MAC, that the hooks saw once each and in order the whole header, message and footer |
| AuthenticatedEncryption.EncryptAndDecrypt | cryptopp/authenc.cpp:62-176 | an encryptor and a decryptor, each with its own chunks: what both have authenticated is the header, then plaintext or ciphertext as the mode says, then the footer; the decryptor puts out the message; below 2^64 bytes the encryptor finishes exactly when IV and lengths are within the limits of the mode, and then so does the decryptor |
| Adler32Checksum.Adler32.Update | cryptopp/adler32.cpp:8-54 | for every input and chunking the two sums are those of all the data, and both end below 65521 |
| Adler32Checksum.NoOverflow | cryptopp/adler32.cpp:29-47 | before each group of eight bytes the second sum has room for it in 32 bits |
| Adler32Checksum.SumsInClosedForm | cryptopp/adler32.cpp:8-54 | the first sum is one and all bytes, the second counts each byte once for each place up to the end |
| Adler32Checksum.DigestIsChecksum | cryptopp/adler32.cpp:56-80 | the digest is s2 * 65536 + s1, most significant byte first, section 2.2 of RFC 1950 |
| Adler32Checksum.AfterEight | cryptopp/adler32.cpp:29-47 | the bound is kept after each group, with the division only every 32768 bytes |
| Adler32Checksum.Adler32.AddEight | cryptopp/adler32.cpp:31-38 | eight bytes without reduction keep the sums right and within reach of one subtraction for the first |
| Adler32Checksum.Adler32.TruncatedFinal | cryptopp/adler32.cpp:56-80 | the front of the four digest bytes of section 2.2 of RFC 1950, and a fresh sum |
| BaseNFilters.EncoderBlockSize | cryptopp/basecode.cpp:26-43 | widths of 1 to 7 bits, and no others, have a block size, and the search finds the characters of the smallest block of whole bytes |
| BaseNFilters.DecoderBlockSize | cryptopp/basecode.cpp:119-128 | the same for the bytes of that block |
| BaseNFilters.SplitByte | cryptopp/basecode.cpp:53-79 | a byte's bits go on in digits behind those there, the block is never overrun |
| BaseNFilters.BaseNEncoder.Put2 | cryptopp/basecode.cpp:48-113 | for every chunking the output of a message is its one-shot encoding with padding |
| BaseNFilters.PlaceDigit | cryptopp/basecode.cpp:143-162 | a digit's bits go on in bytes behind those there, the block is never overrun |
| BaseNFilters.BaseNDecoder.Put2 | cryptopp/basecode.cpp:133-176 | for every chunking the output of a text is its one-shot decoding |
| BaseNFilters.InitializeDecodingLookupArray | cryptopp/basecode.cpp:178-197 | each byte has the number of the last letter it matches, or -1 |
| BaseNFilters.TableInverts | cryptopp/basecode.cpp:178-197 | the table inverts the alphabet exactly when no two letters match |
| BaseNFilters.Grouper.Put2 | cryptopp/basecode.cpp:214-243 | for every chunking the output is the text with a separator between groups, and the terminator |
| BaseNFilters.GroupedJoin | cryptopp/basecode.cpp:214-243 | grouping two parts one after the other is grouping them together |
| BaseNFilters.GroupsAndSeparators | cryptopp/basecode.cpp:214-243 | a separator stands behind every group that characters follow, and nowhere else |
| BaseNCode.OrJoin | cryptopp/basecode.cpp:61-71 | combining shifted parts with OR joins their bits: none overlap |
| BaseNCode.CodeRoundTrip | cryptopp/basecode.cpp:48-176 | splitting bytes into digits of 1 to 7 bits and joining them gives the bytes back |
| BaseNCode.DigitBit | cryptopp/basecode.cpp:48-94 | bit j of digit k is bit w k + j of the data, bytes in order and from their highest bits down, or zero behind the end |
| BaseNCode.PadLengthFills | cryptopp/basecode.cpp:95-112 | the padding fills up the last block and no more |
| BaseNCode.ValuesOfGrouped | cryptopp/basecode.cpp:133-243 | separators outside the alphabet do not change the digits a text has |
| BaseNCode.RoundTrip | cryptopp/basecode.cpp:22-243 | decoding the grouped encoding gives the data, for every width, alphabet, padding and group size |
| BaseNFilters.EncodeGroupDecode | cryptopp/basecode.cpp:22-243 | the same of the three filters' own code, each fed in chunks of any size |
| Base64.EncodedIsQuanta | cryptopp/base64.cpp:8-30 | with the standard alphabet the encoder makes the text of section 4 of RFC 4648 |
| Base64.Base64RoundTrip | cryptopp/base64.cpp:8-30 | that text, in lines of any length or without line breaks, decodes to the data |
| Base64.EncodeDecode | cryptopp/base64.cpp:15-64 | the filters with the standard alphabet and the table made from it give the data back, in any chunks, with line breaks or without |
| SingletonProtocol.StepKeepsInvariant | base/singleton.h:238-277 | every step of every thread keeps: nothing made, one maker, or one object published |
| SingletonProtocol.OneObject | base/singleton.h:238-277 | in every run New runs at most once, and all that is returned is what it made |
| SingletonProtocol.WaitersHaveAMaker | base/singleton.cc:17-40 | a waiting thread waits for another one that is making, or the object is there |
| SingletonProtocol.MakerPublishes | base/singleton.h:259-270 | the maker publishes in at most two steps of its own |
| SingletonProtocol.PublishedReturns | base/singleton.h:246-276 | once published, any thread inside returns the object in at most two steps of its own |
| SingletonProtocol.CorrectIffNeitherNullNorMarker | base/singleton.h:238-277 | runs are safe exactly for values of New other than null and the marker |
| SingletonProtocol.NullIsMadeAgain | base/singleton.h:238-277 | a run in which New returns null and is run a second time |
| SingletonProtocol.OnlyTheMakerReturns | base/singleton.h:238-277 | where New returns the marker, in every run its maker returns it and nobody else ever returns |

## Left out

- Error lines and columns of the JSON parser, and the rounding of strtod, which is a parameter: which double is nearest
  to a number, if any. Doubles are exact real numbers with a sign, and std::to_string rounds to the nearest of six
  decimals, a tie to the even one, with the point of the C locale.
- wchar_t conversions, and text conversions other than UTF-8 and UTF-16.
- Stopping and resuming a filter when its target blocks, ByteQueue, LazyPutter and EncodedObjectFilter: a target is a
  sequence of bytes.
- The rounds of block ciphers, and derived authenticated modes: their hooks record what they were given, and
  AuthenticateBlocks takes all whole blocks.
- Integer, ModularArithmetic and a_exp_b_mod_c: mathematical integers and modular powers.
- Singleton's OnExit and StaticMemorySingletonTraits, memory orders weaker than interleaving, and fairness of the
  scheduler: progress is stated as the steps a thread itself must take.
- The three blocks of CMAC's register are three arrays, and Adler-32's eight unrolled steps an inner loop.
- CmacMode.Cmac.AdvancedProcessBlocks: only the flags CMAC gives; counters, reverse direction and xor of the output
  are not modelled.
- JsonParsing.JsonParser.ParseInput: the index is unbounded, where the source's is an int; inputs of 2³¹ bytes or more
  are outside what the source can index.
- Buffers that the source reserves in advance, and asserts that only guard against misuse.
- CmacMode.DoubleIsTimesX: holds for 32-byte blocks too, with the source's polynomial, which no standard prescribes.
