# Hash Archive, verified models

Hash Archive fetches URLs, stores the digests of what it got, and answers which URLs had which digest. These Dafny
modules model the parts of it that are hardest to get right, and prove what callers rely on.

- **JSON** (`deps/yajl/src`). The lexer keeps a token that a chunk cuts in two and reads it again when the next
  chunk comes. The parser is a stack of states that calls the client back; the tree builder is one such client; the
  generator prints. `JsonLex` and `JsonParse` say what a text means (an automaton over octets, and a function from
  states and text to states and callbacks). The classes of `YajlLexer`, `YajlParser`, `YajlTree` and `YajlGen` are
  the C objects, with the fields and the loops of the C code, proved against that meaning. `JsonString` is the
  string codec, `JsonBody` what becomes of the strings that the lexer accepts, `JsonNumber` the grammar of numbers.
  `JsonTokens`, `JsonGap`, `JsonGrammar` and `JsonText` are JSON as RFC 8259 has it: octets to tokens, what stands
  between them, tokens to values, and all together. `JsonAccepted` says that the parser accepts nothing else,
  `JsonShape` what becomes of texts whose strings cannot be decoded, and `JsonOptions` what the options for trailing
  garbage, several values and partial values let through. `Rfc8259` has the octets by the tables of the two RFCs, and
  `JsonEscapes` what escapes and UTF-8 mean by them; neither uses the lexer or the codec. `JsonTree` ties the parser to the tree builder and
  keeps texts whole; `TreeStrings` is the tree as the C code has it, where every text ends at its first NUL.
  `PrintParse` and `PrintLimits` tie the generator to the parser, `Reprint` the parser to the generator. `GenLayout` is
  a printer that follows the value, and `GenAnswers` tells from the calls so far how the next is answered.
- **Codecs** (`deps/libbase58/base58.c`, `src/util/hash.c`). `Base58` and `Base64` work on arrays in place, `Radix`
  holds the arithmetic of positional notation, `Multihash` the URI form that is built on base 58. `Base64Bits` and
  `MultihashTexts` say what texts mean in bits and octets, by RFC 4648 and the multihash format.
- **CommonMark trees** (`deps/cmark/src`). `NodeForest` has the five-pointer nodes and the operations that relink
  them; a ghost map from nodes to the lists of their children says what the pointers mean. `Moves` says what the
  operations do, `KindRules` what may stand where, `Freeing` frees subtrees, `NodeIterator` walks, `Consolidate`
  merges texts while it walks.
  `Emphasis` is the delimiter algorithm that searches all the way down, `Inlines` the linked delimiter list and the
  code with its short cut, `EmphasisNodes` what it does to the nodes, `EmphasisRuns` what becomes of runs of stars,
  underscores and quotes. `LineFeed` cuts chunked input into lines, `DocumentLines` says what lines are.
- **Store and queue** (`src/db.c`, `src/queue.c`). A table is the set of its keys and a transaction one step.
  `Ranges` reads a range through a cursor, in any total order. `Store` has the primary table, the two indexes and the
  reads from them; `CrawlQueue` the adds, claims and completions of any number of clients and workers, under any
  interleaving, and restarts of the process; `QueueSteps` says by scans of the tables what each of them does.

`Bytes` and `Optional` are shared.

A class method is proved against a function of the old state: `State() == Feed(flags, old(State()), text)`. What the
function promises is then proved about it, for every input, every run or every reachable state, in terms of its own:
octets and numbers, grammars, scans.

## Model

| member | source | states |
|---|---|---|
| JsonLex.ScanExtends | deps/yajl/src/yajl_lex.c:498-672 | a token decided on a part of the text is the token of any longer text; where the part ends inside a token, the longer text is scanned on from where that token began |
| JsonLex.ScanShift | deps/yajl/src/yajl_lex.c:498-672 | scanning depends on nothing before the offset, so that what was read may be dropped from the carry-over buffer |
| YajlLexer.Lexer.ReadChar | deps/yajl/src/yajl_lex.c:96-99 | the octet read is the next one of carry-over buffer followed by chunk, and the end of the chunk is reached exactly at the end of both |
| YajlLexer.Lexer.UnreadChar | deps/yajl/src/yajl_lex.c:101 | exactly one octet goes back, even across the border between chunk and buffer |
| YajlLexer.Lexer.LexUtf8Char | deps/yajl/src/yajl_lex.c:194-247 | accepts exactly the continuation bytes that the lead byte asks for, over the border of chunks, and tells a missing byte from a wrong one |
| YajlLexer.Lexer.LexString | deps/yajl/src/yajl_lex.c:267-368 | with its fast scan and its escapes, ends where the automaton ends, with the same token or error, or out of text exactly when the automaton is |
| YajlLexer.Lexer.LexNumber | deps/yajl/src/yajl_lex.c:370-455 | the same for numbers: integer or double, the octet after the number given back, and the error that names the missing digit |
| YajlLexer.Lexer.LexComment | deps/yajl/src/yajl_lex.c:457-496 | the same for both kinds of comment |
| YajlLexer.Lexer.Lex | deps/yajl/src/yajl_lex.c:498-672 | the next token of what earlier chunks left and this chunk is the one of the two joined; an unfinished token is kept whole, a finished or wrong one leaves nothing behind |
| YajlLexer.StringScan | deps/yajl/src/yajl_lex.c:254-265 | skips exactly the octets up to the first that needs a look |
| JsonParse.ParseExtends | deps/yajl/src/yajl_parser.c:185-497 | parsing a text is parsing its first part, and then the rest from the state and the unfinished token that the first part left |
| JsonParse.FeedTwice | deps/yajl/src/yajl_parser.c:185-497 | two chunks are as good as one |
| JsonParse.ChunkingDoesNotMatter | deps/yajl/src/yajl_parser.c:158-497 | two ways of cutting one text into chunks, empty ones included, give the same callbacks and the same final status, under all flags |
| JsonParse.RunIsParse | deps/yajl/src/yajl_parser.c:158-183 | feeding chunks and finishing is one parse of the whole text and a space |
| YajlParser.Parser.DoParse | deps/yajl/src/yajl_parser.c:185-497 | the object's stack, callbacks and carry-over after a chunk are those of the chunk-free meaning; the status is an error exactly in a failed state |
| YajlParser.Parser.DoFinish | deps/yajl/src/yajl_parser.c:158-183 | the callbacks and the verdict of finishing, under all flags |
| YajlParser.Parser.Take | deps/yajl/src/yajl_parser.c:243-493 | one pass of the state switch: what each token does to stack and callbacks in each state |
| JsonTokens.TokenIsFound | deps/yajl/src/yajl_lex.c:498-672 | a token of RFC 8259, standing anywhere in a text, is found there with its kind and its end; a number needs something behind it that ends it |
| JsonTokens.FoundIsToken | deps/yajl/src/yajl_lex.c:498-672 | and what the lexer finds is such a token: punctuation, the three words, a number, a string with its escapes and its UTF-8 |
| JsonGrammar.ParseIsRunOn | deps/yajl/src/yajl_parser.c:185-497 | parsing a text is running the parser on its tokens, and an error of the lexer is a failure of the parser |
| JsonGrammar.ValueRuns | deps/yajl/src/yajl_parser.c:185-497 | wherever a value may stand, the tokens that the grammar gives a value take the parser over it with exactly its callbacks |
| JsonAccepted.FindValue | deps/yajl/src/yajl_parser.c:185-497 | and where the parser gets to the end, the tokens from there on start with those of a value of the grammar, commas, colons and brackets in place |
| JsonAccepted.SpellsOne | deps/yajl/src/yajl_parser.c:185-497 | no tokens spell two values |
| JsonAccepted.TokensDecide | deps/yajl/src/yajl_parser.c:158-183 | with no option that changes what is accepted, a run ends ok if and only if the scan meets no error and the tokens spell a value; then the callbacks are those of that value |
| JsonOptions.UnfinishedIs | deps/yajl/src/yajl_parser.c:185-497 | the parser fails on some tokens if and only if no tokens behind them could make a value of the whole |
| JsonOptions.PartialIs | deps/yajl/src/yajl_parser.c:158-183 | with partial values allowed, and the other two off, a run ends ok if and only if the scan meets no error and more tokens could make a value of those there are |
| JsonOptions.GarbageIs | deps/yajl/src/yajl_parser.c:185-216 | with trailing garbage allowed and several values not, a run ends ok if and only if the first tokens spell a value, whatever is behind them (or, with partial values, the text is the start of a value); the callbacks are those of that value |
| JsonOptions.ManyIs | deps/yajl/src/yajl_parser.c:158-216 | with several values allowed, a run ends ok if and only if the scan meets no error and the tokens spell one or more values, one after the other (or, with partial values, some values and the start of another); the callbacks are theirs in order |
| JsonGap.ScanGap | deps/yajl/src/yajl_lex.c:457-672 | what the lexer passes over is white space, the four octets of RFC 8259 section 2 and two more that the code takes, and, where they are allowed, whole comments; what it finds behind is a token |
| JsonGap.ScanSkipsGap | deps/yajl/src/yajl_lex.c:457-672 | and it passes over all of that, wherever it stands |
| JsonGap.OpenIs | deps/yajl/src/yajl_lex.c:267-368 | when the space of finishing is the last octet, the lexer is out of text from an octet on exactly when a string or comment begins there, has no error in it, and is not closed |
| JsonText.ScanEnds | deps/yajl/src/yajl_lex.c:498-672 | the scan finds tokens that spell a value and an unfinished rest at k exactly when the text says that value up to k, and ends there or goes on with such an open string or comment |
| JsonText.RunIs | deps/yajl/src/yajl_parser.c:158-183 | a run, in any chunks, ends ok with the callbacks of a value if and only if the text says the value, or says it up to an open string or comment; comments allowed or not |
| JsonText.AcceptedIs | deps/yajl/src/yajl_parser.c:158-183 | a text is JSON and says a value if and only if its run ends ok with the callbacks of that value and leaves nothing unread |
| JsonText.OkIs | deps/yajl/src/yajl_parser.c:158-183 | the accepted texts: JSON, and JSON with an open string or comment behind it |
| JsonText.OkIsJson | deps/yajl/src/yajl_parser.c:158-183 | so ok means JSON exactly for the texts that are not JSON with an open string or comment behind it, a condition on the text alone |
| JsonText.OnlyOpenIsLeft | deps/yajl/src/yajl_lex.c:267-368 | what an ok run leaves unread is that open string or comment, and the space of finishing |
| JsonText.UnclosedStringIsAccepted | deps/yajl/src/yajl_parser.c:158-183 | the text `1 "` is such a text: ok, with the callbacks of 1, and no JSON |
| JsonShape.ShapedRuns | deps/yajl/src/yajl_parser.c:185-497 | a text whose tokens stand as RFC 8259 asks, whatever its strings hold, is accepted if and only if the decoder gets through all of them, and stops the program otherwise |
| JsonShape.OkIsShaped | deps/yajl/src/yajl_parser.c:158-183 | and nothing else is accepted |
| JsonTree.StackIsOpenContainers | deps/yajl/src/yajl_parser.c:185-497 | in every reachable state, under all flags, the state stack is exactly the containers that the callbacks so far opened and did not close, objects and arrays told apart |
| JsonTree.SoundRun | deps/yajl/src/yajl_parser.c:158-183 | a run that ends ok, multiple and partial values off, has called back the flattening of one value, and of no other |
| JsonTree.FlattenIsInjective | deps/yajl/src/yajl_tree.c:271-398 | two values never have the same callbacks |
| TreeStrings.BuilderNeverFails | deps/yajl/src/yajl_tree.c:213-398 | with multiple values off, on the callbacks of any chunks, complete or not, no tree callback fails, and stack and root together hold exactly the callbacks made so far, each text up to its first NUL |
| TreeStrings.TreeOf | deps/yajl/src/yajl_tree.c:213-398 | the callbacks of a value build the value with every string and key cut at its first NUL, members in order and repeated keys kept |
| TreeStrings.RootOfRun | deps/yajl/src/yajl_tree.c:403-453 | when a run ends ok that is the root, and it is the value itself if and only if no text of the value has a NUL |
| TreeStrings.RootIsWhole | deps/yajl/src/yajl_tree.c:271-290 | equivalently, if and only if no string of the text has an escape that names a NUL |
| TreeStrings.TreeParseIs | deps/yajl/src/yajl_tree.c:403-453 | yajl_tree_parse returns a tree exactly when the run of its text, which ends at its first NUL too, ends ok; which tree, and when nothing was lost |
| TreeStrings.NulIsLost | deps/yajl/src/yajl_tree.c:271-290 | the text `"\u0000"` is called back as a string of one NUL, and the tree has the empty string |
| YajlTree.Context.ContextAddValue | deps/yajl/src/yajl_tree.c:213-269 | a value whose texts are C strings becomes the root, a key, a member or an item, or is refused and changes nothing, exactly as the builder's meaning says; all that is held stays free of NULs |
| YajlTree.Context.Handle | deps/yajl/src/yajl_tree.c:271-398 | each callback is one step of the builder's meaning, on what is left of its text when the length is dropped, and false exactly where there is no step |
| JsonString.StringEncode | deps/yajl/src/yajl_encode.c:31-76 | flushing runs of plain octets prints what escaping octet by octet does |
| JsonString.StringDecode | deps/yajl/src/yajl_encode.c:78-178 | the cursor loop gives what unescaping from left to right does, and stops the program exactly where that meets one of the two assertions |
| JsonString.DecodeUndoesEncode | deps/yajl/src/yajl_encode.c:31-76 | decoding an encoded string gives the string, with and without escaped solidus |
| JsonString.PairValueIsCodePoint | deps/yajl/src/yajl_encode.c:144-149 | the bit formula for a surrogate pair is the code point of RFC 8259 section 7, for every pair |
| JsonEscapes.Utf8IsRead | deps/yajl/src/yajl_encode.c:90-114 | reading the octets of a value as RFC 3629 says, payload bits by position and the shortest form only, gives the value, for all below 0x200000 |
| JsonEscapes.SpeltOnce | deps/yajl/src/yajl_encode.c:90-114 | and there are no other octets that read as it |
| JsonEscapes.MeaningIsDecoded | deps/yajl/src/yajl_encode.c:116-178 | a body in which every escape names a character by RFC 8259 section 7, surrogates in pairs, decodes to the text that it means: octets as they are, letters by the table, numbers as octets that read as the code point |
| JsonEscapes.HasMeaning | deps/yajl/src/yajl_encode.c:116-178 | every body of such escapes has a meaning, which it decodes to |
| JsonEscapes.HighTakesAny | deps/yajl/src/yajl_encode.c:140-149 | a high surrogate is combined with any escaped number behind it, low surrogate or not, by the last ten bits of that number |
| JsonEscapes.LoneIsQuestion | deps/yajl/src/yajl_encode.c:140-156 | a high surrogate without an escaped number behind it becomes a question mark, and the octet behind it is lost |
| JsonEscapes.EncodedOctet | deps/yajl/src/yajl_encode.c:31-76 | an octet is written as it is exactly when it is no control, quotation mark or backslash, nor a solidus that is to be escaped; else by its letter, if it has one, or by four digits that are its number |
| JsonEscapes.WrittenAsItIs | deps/yajl/src/yajl_encode.c:31-76 | a string without such octets encodes to itself |
| JsonEscapes.SlashIsEscaped | deps/yajl/src/yajl_encode.c:56 | with the option on, no solidus stands in the encoding without a backslash before it |
| JsonBody.HopDecodes | deps/yajl/src/yajl_encode.c:116-178 | for every body that the lexer accepts, what the decoder adds from one place of the lexer to the next, in step or not: a high surrogate without a partner becomes a question mark and takes the next octet with it |
| JsonBody.SteadyIs | deps/yajl/src/yajl_encode.c:78-178 | decoding such a body meets neither assertion if and only if a scan of the body is steady |
| JsonBody.StopsOnlyBehindLone | deps/yajl/src/yajl_encode.c:140-172 | it meets one only when a high surrogate stands directly before an escaped backslash |
| JsonBody.TearsIs | deps/yajl/src/yajl_encode.c:140-172 | the decoded text of a body in valid UTF-8 is valid UTF-8 if and only if no lone surrogate swallows the first octet of a longer sequence |
| JsonBody.NamesNulIs | deps/yajl/src/yajl_encode.c:138-172 | the decoded text of a body has a NUL if and only if the decoder reads an escape of four zeros, whether or not the lexer sees one there |
| Reprint.LexedDecodes | deps/yajl/src/yajl_encode.c:78-178 | so the strings of a text decode exactly when their scans are steady |
| Reprint.StringsThatStop | deps/yajl/src/yajl_encode.c:169 | a string that the lexer accepts and at which the program stops, under all flags |
| JsonString.ValidateUtf8 | deps/yajl/src/yajl_encode.c:182-220 | true exactly when lead and continuation octets alternate as their lengths ask |
| JsonNumber.NumbersAreNumbers | deps/yajl/src/yajl_lex.c:370-455 | the lexer reads a text to its end as one number exactly when it is a number of RFC 8259 section 6: minus, integer without leading zeros, fraction, exponent |
| YajlGen.Gen.Open | deps/yajl/src/yajl_gen.c:296-307 | an opening call's status and, when ok, the new level and the text printed; when it is refused for state nothing changes |
| YajlGen.Gen.Close | deps/yajl/src/yajl_gen.c:309-321 | a closing call drops the level, completes the value below and prints its bracket where layout asks; when nothing is open the depth wraps around and the answer is that the value is complete |
| YajlGen.Gen.String | deps/yajl/src/yajl_gen.c:253-272 | a string or key: refused when validation asks for it, else quoted and encoded behind its separator |
| YajlGen.Gen.Number | deps/yajl/src/yajl_gen.c:243-251 | a number as written, refused as a key |
| PrintParse.EmissionReads | deps/yajl/src/yajl_gen.c:143-205 | what one successful call prints moves the parser from the state for the generator's old levels to the one for its new levels, with that one event called back |
| PrintParse.CallsReadBack | deps/yajl/src/yajl_gen.c:206-346 | after any sequence of successful calls, under all settings of generator and parser, the text printed so far is read back as exactly the calls |
| PrintParse.PrintThenParse | deps/yajl/src/yajl_gen.c:143-346 | every value at most 127 containers deep, with valid strings and numbers, is printed without a refusal; its text, in any chunks, is parsed ok into exactly its events |
| PrintLimits.PrintsUpToTheLimit | deps/yajl/src/yajl_gen.c:179-180 | such a value is printed if and only if it is at most 127 containers deep |
| GenLayout.LaidOutAs | deps/yajl/src/yajl_gen.c:143-346 | the text printed for a value is that of a printer that follows the value: words, brackets, commas and colons in octets, and, where it is to be beautiful, a line for each item, one step of indentation for each container, a space behind each colon and a line break at the end |
| GenAnswers.AnswersTo | deps/yajl/src/yajl_gen.c:165-180 | the answer to any next call, told from the calls so far: the string that is no UTF-8, a whole value printed already, a key due and no string, 127 containers open, or ok; in this order |
| PrintLimits.PrintThenBuild | deps/yajl/src/yajl_tree.c:403-453 | printing, parsing in any chunks and building the tree gives the value back with its texts cut at their first NULs, and so the value itself if and only if it has no NUL |
| Reprint.ParsedIsPrintable | deps/yajl/src/yajl_gen.c:253-272 | a value parsed from validated strings can be printed if and only if no string of its text tears a UTF-8 sequence |
| Reprint.ParsedPrintsAgain | deps/yajl/src/yajl_gen.c:143-346 | then printing it, up to 127 containers deep, and parsing the text again in any chunks gives the same callbacks |
| Base58.TablesAgree | deps/libbase58/base58.c:24-33 | the digit table is the inverse of the alphabet, and knows nothing else |
| Base58.AlphabetIs | deps/libbase58/base58.c:143 | the alphabet is the ASCII digits and letters in the order of their codes, without 0, O, I and l |
| Base58.Capacity | deps/libbase58/base58.c:155-156 | 58 to the size of the buffer exceeds 256 to the number of octets, for every number |
| Base58.CarriedFits | deps/libbase58/base58.c:159-167 | the carry is spent before the index falls below zero |
| Base58.CarryIn | deps/libbase58/base58.c:159-167 | the inner loop multiplies the number in the buffer by 256 and adds the octet, digits stay below 58, and those in front of the mark stay zero |
| Base58.Convert | deps/libbase58/base58.c:145-167 | the buffer read in base 58 is the value of the octets |
| Base58.B58Enc | deps/libbase58/base58.c:145-185 | a '1' for each zero octet in front and the shortest spelling of the value, its NUL, the size in both outcomes, and nothing written when the room is too small |
| Base58.MulAdd | deps/libbase58/base58.c:66-72 | the limbs are multiplied by 58 and a digit is added, and what is carried out is the rest of the sum |
| Base58.Room | deps/libbase58/base58.c:76-78 | the look at the first limb finds out exactly whether the value needs more octets than there are |
| Base58.B58ToBin | deps/libbase58/base58.c:35-113 | succeeds exactly when all characters are digits and the value is below 256 to the size; then the buffer holds the value big-endian, and the returned size swaps zero octets for leading ones |
| Base58.DecodeIs | deps/libbase58/base58.c:35-113 | the octets are the only ones of that width with the value of the text |
| Base58.EncodedWorth | deps/libbase58/base58.c:145-185 | a spelling is worth what its octets are, and has as many leading ones as they have zeros |
| Base58.RoundTrip | deps/libbase58/base58.c:35-185 | decoding an encoding into as many octets gives them back, zeros in front included, and their number |
| Base58.RoundTripInto | deps/libbase58/base58.c:35-185 | in a wider buffer the octets stand at the end, behind zeros, and the size says how many they are |
| Base58.EveryText | deps/libbase58/base58.c:35-185 | every text in the alphabet is the spelling of some octets |
| Base58.EncodeUndoesDecode | deps/libbase58/base58.c:35-185 | encoding what was decoded gives the text back exactly when the octets have one zero in front for each leading '1' |
| Multihash.TextLength | src/util/hash.c:451-465 | the multihash of a full-length SHA-1, SHA-256 or SHA-512 digest is spelt in exactly 30, 46 or 90 characters |
| Multihash.EncodedLength | src/util/hash.c:451-456 | no spelling is longer than the estimate for the buffer, so the assertion in b58_encode holds |
| Multihash.RoundTrip | src/util/hash.c:187-220 | for these algorithms the guessed size is exactly two octets and the digest, and parsing what was formatted gives back algorithm and digest |
| Multihash.BeyondIs | src/util/hash.c:187-220 | the returned size counts octets that were never decoded exactly for a text that starts with '1' and decodes to a known code |
| Multihash.BeyondHappens | src/util/hash.c:187-220 | a text for which this happens |
| Multihash.HashUriFormat | src/util/hash.c:279-287 | the text and the length that snprintf reports, cut to the caller's room; no text for algorithms without a code |
| Multihash.HashUriParseMultihash | src/util/hash.c:187-220 | every outcome of parsing: the pattern, the decoding, the code, and as digest all octets behind the first two, whatever the length octet says |
| MultihashTexts.ParseIs | src/util/hash.c:187-220 | every text: fewer than eight characters, or one outside the alphabet, is refused; any other spells octets, which must be as many as three quarters of its length, 66 at most, and start with 0x11, 0x12 or 0x13; then the digest is what is behind the first two |
| MultihashTexts.FormattedIs | src/util/hash.c:279-287 | the octets in front of the digest are 0x11 and 20, 0x12 and 32, or 0x13 and 64; MD5 and SHA-384 have none |
| MultihashTexts.Qm | src/util/hash.c:279-287 | the text of every SHA-256 digest has 46 characters and starts with Qm |
| Base64.AlphabetsAgree | src/util/hash.c:365-372 | every character of both alphabets is read back as its value, and none ends the text |
| Base64Bits.AlphabetsAre | src/util/hash.c:365-372 | the alphabets are tables 1 and 2 of RFC 4648 |
| Base64.B64Encode | src/util/hash.c:373-413 | prints as many whole groups as there is room for, or everything, and a NUL, and writes nothing behind its room |
| Base64.B64Decode | src/util/hash.c:414-450 | reads octets up to padding, NUL or the room; fails exactly on a character of neither alphabet; writes nothing behind its room |
| Base64.ReadUndoesSpelled | src/util/hash.c:414-450 | decoding a spelling, padded or not, gives its octets up to the room there is |
| Base64Bits.SpelledIs | src/util/hash.c:373-413 | the characters of an encoding, as digits in base 64, are the number that the octets are in base 256, with zero bits up to a multiple of six; as many characters as that takes, and padding up to a multiple of four in the standard form only |
| Base64Bits.ReadIs | src/util/hash.c:414-450 | decoding any text looks at the characters up to the first NUL or sign of equality, and no more than there is room for; it fails if and only if one of them is in neither alphabet, and else gives the whole octets that their bits begin with |
| Base64.RoundTrip | src/util/hash.c:373-450 | encoding into max characters and decoding gives the first min(len, 3 * ((max - 1) / 4)) octets |
| Base64.FormatterKeeps | src/util/hash.c:275-278 | the formatter's 87 characters keep 63 octets, so a digest of 64 loses its last |
| NodeForest.SCanContain | deps/cmark/src/node.c:27-76 | true exactly when both are nodes with one allocator, the child is not the node or above it, and the kinds go together |
| KindRules.HoldsFor | deps/cmark/src/node.c:27-76 | for each kind of child, under which kinds it may hang: inlines under paragraphs, headings and the inlines that hold any, items under lists, other blocks under documents, quotes and items, everything under custom blocks, and nowhere else |
| KindRules.LeavesHoldNothing | deps/cmark/src/iterator.c:9-13 | the leaves of the iterator are exactly the kinds that may hold nothing |
| NodeForest.SNodeUnlink | deps/cmark/src/node.c:644-665 | exactly the four pointers around the node change |
| NodeForest.NodeUnlink | deps/cmark/src/node.c:668-674 | the node is a root with its subtree, and all other lists are as they were |
| NodeForest.NodeInsertBefore | deps/cmark/src/node.c:676-707 | ok exactly when the sibling may hang there; then the pointers show the forest with it moved; otherwise no pointer changes. A node that is its own sibling becomes its own neighbour |
| NodeForest.NodeInsertAfter | deps/cmark/src/node.c:709-740 | the same, behind the node |
| NodeForest.NotShownSelf | deps/cmark/src/node.c:676-740 | pointers with a node that is its own neighbour show no forest |
| NodeForest.NodePrependChild | deps/cmark/src/node.c:750-772 | the same, as first child, even when it is a child already |
| NodeForest.NodeAppendChild | deps/cmark/src/node.c:774-796 | the same, as last child, even when it is a child already |
| NodeForest.NodeReplace | deps/cmark/src/node.c:742-748 | the same, in the place of a node that becomes a root. A node that replaces itself loses its parent, and its old list still leads to it |
| NodeForest.NotShownLoose | deps/cmark/src/node.c:742-748 | pointers with a list that leads to a node without a parent show no forest |
| NodeForest.ApplySound | deps/cmark/src/node.c:644-796 | no operation makes a cycle, puts a node on two lists or loses one |
| NodeForest.RunsStaySound | deps/cmark/src/node.c:644-796 | nor does any sequence of operations |
| KindRules.NothingMisplaced | deps/cmark/src/node.c:27-76 | after any sequence of operations on nodes that hung nowhere at first: below an inline, a paragraph or a heading there are only inlines, lists hold only items, items hang on lists or custom blocks, documents are roots, and parent and child have one allocator |
| Moves.OthersKeepTheirOrder | deps/cmark/src/node.c:644-796 | on every list the nodes that an operation does not name stay, in their order |
| Moves.StandsWhereAsked | deps/cmark/src/node.c:676-796 | what is moved stands directly before or behind its neighbour, first, last, or in the old place, and on no other list; what was replaced hangs nowhere |
| Freeing.SFreeNodes | deps/cmark/src/node.c:109-146 | exactly the node and all below it are freed, and in the record of all reads, writes and frees none is touched after it was freed, so none is freed twice |
| Freeing.NodeFree | deps/cmark/src/node.c:148-152 | the pointers that are left show the forest without the subtree |
| NodeIterator.Iter.Next | deps/cmark/src/iterator.c:36-73 | returns the event it held and moves on to its successor in the walk |
| NodeIterator.Iter.Reset | deps/cmark/src/iterator.c:75-82 | goes on from the given event, as if it had been returned |
| NodeIterator.Events | deps/cmark/src/iterator.c:36-73 | on a tree that does not change the events are exactly those of the recursive walk |
| NodeIterator.WalkIsWhole | deps/cmark/src/iterator.c:36-73 | the recursive walk goes from each event to its successor, from entering the root until nothing follows |
| NodeIterator.WalkIsUnique | deps/cmark/src/iterator.c:36-73 | and no other sequence of events does |
| NodeIterator.RemoveFromWalk | deps/cmark/src/iterator.c:90-120 | the walk of a tree without one leaf is the old walk without its event |
| Consolidate.MergeKeepsContent | deps/cmark/src/iterator.c:90-120 | leaving out a text whose neighbour took over its octets changes nothing in what the tree says |
| Consolidate.ConsolidateTextNodes | deps/cmark/src/iterator.c:90-120 | all text octets and all other events stay, in order; no two texts are neighbours; only texts of the tree are freed or changed, and all lists and texts outside are as they were; the events that the loop is given are the walk of the tree that is left, so none is about a freed node. A root that is a text takes up the texts behind it on its list, and nothing else changes |
| Emphasis.UsesOneOrTwo | deps/cmark/src/inlines.c:526-541 | opener and closer lose one or two characters each, and never more than they have; two exactly when both have two, and one of them has no more or the closer has an even number |
| Emphasis.StepProgresses | deps/cmark/src/inlines.c:463-519 | every step leaves fewer delimiters ahead, or as many and a shorter closer, so the loop ends |
| Emphasis.StepReady | deps/cmark/src/inlines.c:463-519 | every delimiter keeps its text among the siblings, in order, and one for emphasis keeps a character |
| Emphasis.NoneIsEmpty | deps/cmark/src/inlines.c:526-587 | at the end all delimiters were looked at, and none for emphasis is empty |
| Emphasis.Conserved | deps/cmark/src/inlines.c:526-587 | the delimiter characters at the start are those left as text, plus two for each emphasis and four for each strong one |
| EmphasisRuns.TwoRunsEmphasize | deps/cmark/src/inlines.c:448-587 | a run that opens and one that closes, of any lengths: as many characters of both as the shorter has become nodes around what is between, two for each strong one and one for a plain one, innermost or outermost; the rest stays as text |
| EmphasisRuns.EqualRunsEmphasize | deps/cmark/src/inlines.c:448-587 | runs of n characters leave none: n / 2 strong nodes, and a plain one innermost exactly when n is odd |
| EmphasisRuns.NoneMatchNothing | deps/cmark/src/inlines.c:463-519 | when no closing run has an opening one of its character before it, nothing changes |
| EmphasisRuns.QuotesCurl | deps/cmark/src/inlines.c:488-507 | an opening and a closing quote become the two curled ones, U+2018 and U+2019 or U+201C and U+201D |
| EmphasisRuns.ApostropheCurls | deps/cmark/src/inlines.c:488-507 | a closing quote alone becomes the right one |
| Inlines.Subject.PushDelimiter | deps/cmark/src/inlines.c:345-360 | the new delimiter is the last of the list |
| Inlines.Subject.RemoveDelimiter | deps/cmark/src/inlines.c:329-342 | the list is linked both ways without it |
| Inlines.Subject.LookBack | deps/cmark/src/inlines.c:468-478 | the search that stops at openers_bottom finds what the search down to stack_bottom finds |
| EmphasisNodes.WrapNodes | deps/cmark/src/inlines.c:526-587 | on the nodes: those between opener and closer become the children of a new node that stands in their place, texts are shortened, the empty ones are freed, every other list and text is as it was, and the pointers show this forest |
| EmphasisNodes.WrapPictured | deps/cmark/src/inlines.c:526-587 | siblings that picture some inlines, with all that is nested in them, picture what the delimiter algorithm makes of these inlines afterwards |
| EmphasisNodes.InsertEmph | deps/cmark/src/inlines.c:526-587 | so the pointer moves of S_insert_emph do to the tree what the algorithm does to the sequence |
| Inlines.Subject.SInsertEmph | deps/cmark/src/inlines.c:526-587 | the inlines between go into one new node, both delimiters lose the characters used, the delimiters between and the used-up ones leave the list, and the next closer is the right one |
| Inlines.Subject.HandleCloser | deps/cmark/src/inlines.c:464-519 | one closer is one step of the algorithm that searches all the way down |
| Inlines.Subject.ProcessEmphasis | deps/cmark/src/inlines.c:448-524 | the tree and the opener chosen for every closer are those of that algorithm; the delimiters up to stack_bottom are untouched and none remains above |
| LineFeed.Parser.ParserFeed | deps/cmark/src/blocks.c:512-570 | the lines passed on and the line in the making are those of reading octet by octet, with a CRLF cut by a chunk still one ending |
| LineFeed.Parser.ParserFinish | deps/cmark/src/blocks.c:1167-1171 | an unfinished line is passed on, an empty one is not |
| LineFeed.ChunkingDoesNotMatter | deps/cmark/src/blocks.c:512-570 | in any chunks that are not empty, a text without a NUL before a line ending is passed on as its lines, split at LF, CR and CRLF, NULs replaced |
| LineFeed.QuietIs | deps/cmark/src/blocks.c:512-570 | the lines are independent of the cutting if and only if no NUL stands directly before a line ending with text behind it |
| LineFeed.CutAfterNul | deps/cmark/src/blocks.c:512-570 | cutting behind such a NUL gives one line more, since the code swallows a line ending after a NUL in the same chunk |
| LineFeed.WholeDocument | deps/cmark/src/blocks.c:497-506 | parsing a whole document at once gives the same lines |
| DocumentLines.MadeOfGives | deps/cmark/src/blocks.c:512-570 | however a text is made up of lines without LF and CR, each with LF, CR or CRLF behind it except perhaps the last, these are the lines, with U+FFFD for each NUL |
| DocumentLines.EveryText | deps/cmark/src/blocks.c:512-570 | every text is made up of such lines |
| DocumentLines.FeedingGives | deps/cmark/src/blocks.c:512-570 | feeding a text in any chunks that are not empty passes on the lines it is made up of, unless a NUL stands before a line ending with text behind it |
| Store.AddIndexes | src/db.c:50-101 | adding fails exactly for a URL that cannot be normalised or a taken key, and keeps both indexes in agreement with the responses |
| Store.RunsStayIndexed | src/db.c:50-101 | so they agree after every run of transactions |
| Store.ResponseAdd | src/db.c:50-101 | put by put, the transaction is that one step |
| Ranges.FirstsAreUnique | src/db.c:199-310 | in any total order, there is only one sequence of the greatest max elements, the greatest first |
| Store.GetHistory | src/db.c:199-248 | exactly the newest max responses for the SURT, in descending (time, id); fails exactly when the URL cannot be normalised |
| Store.GetSources | src/db.c:249-310 | for a hash of any length, exactly the first max responses with a digest that starts with it, in the descending order of the index, that is by the first eight octets of the digest and then by (time, id); so the newest ones for a hash of eight octets or more; HX_RES_LATEST exactly on those with no later response for their SURT |
| Store.ShorterIsNotNewest | src/db.c:249-310 | for every hash of fewer octets there are tables for which no answer is the newest |
| Store.GetLatest | src/db.c:348-367 | the greatest (time, id) of the SURT, or none exactly when there is none |
| Store.MergeCommonUrls | src/db.c:137-147 | every result is linked to the next and the previous one with its URL, and to nothing else |
| Store.ContentEq | src/db.c:103-127 | both succeeded, no digest contradicts another, and at least one pair of digests is long enough |
| Store.MergeCommonContent | src/db.c:129-136 | exactly the neighbours with the same content are linked |
| CrawlQueue.CrawlIsSafe | src/queue.c:157-222 | under any interleaving, and over any number of processes that follow one another on the same tables, the forward and the reverse table stay in one-to-one agreement, with one entry for a SURT at most, and two responses for one SURT are more than the crawl delay apart |
| CrawlQueue.ClaimsAreExclusive | src/queue.c:91-132 | the claims of a process ascend strictly, so that nothing is claimed twice, and no two workers share an entry or an id |
| CrawlQueue.StrandedForGood | src/queue.c:254-307 | an entry whose worker gave up is not claimed again, and every add for its SURT is refused, whatever else happens, until the process restarts |
| CrawlQueue.GiveUpStrands | src/queue.c:254-307 | giving up does this to the entry |
| CrawlQueue.RestartRevives | src/queue.c:23-27 | a restart puts every queued entry ahead of the cursor |
| CrawlQueue.SkippedIs | src/queue.c:91-132 | in one process, an unclaimed entry lies ahead of the cursor if and only if it was not put in behind it; one that was is never claimed |
| CrawlQueue.ClaimsTakeTheLeast | src/queue.c:91-132 | when the adds of one process commit in (time, id) order every unclaimed entry lies ahead of the cursor, and each claim takes the least |
| CrawlQueue.InOrderNothingIsLate | src/queue.c:157-222 | under that order nothing is put in behind the cursor |
| CrawlQueue.SkipHappens | src/queue.c:157-222 | without it an entry is passed over: a run in which the later id commits first |
| CrawlQueue.CompletionSucceeds | src/queue.c:254-307 | in one process the key of a completed fetch is never taken, so storing the response never fails for that reason |
| QueueSteps.AddIs | src/queue.c:157-222 | in every reachable state an add puts its entry into both tables if and only if no queued entry has its SURT and every response for it is more than 86400 seconds older; otherwise both stay |
| QueueSteps.ClaimIs | src/queue.c:91-132 | in every reachable state a worker gets an entry if and only if it is queued, lies behind the last claim, and no queued entry lies between |
| QueueSteps.CompletionIs | src/queue.c:254-307 | in every reachable state a worker that is done stores its response under (time fetched, its id) and takes its entry out of both tables, unless the key is taken |
| CrawlQueue.Crawler.CommitAdd | src/queue.c:166-222 | the two cursor looks and the two puts are the add step; the answer is that the SURT is queued exactly when an entry with its SURT is in the table, that it is too soon exactly when none is but a response for it is not more than a day older, and else that it is put into both tables |
| CrawlQueue.Crawler.QueuePeek | src/queue.c:91-132 | seeking from (time, id + 1) finds a least entry ahead of the cursor, which moves there, or no entry has a later key |
| CrawlQueue.Crawler.Finish | src/queue.c:133-153 | removing the entry from both tables and storing the response is the completion step; it fails, and keeps nothing, exactly when the key is taken |

## Properties that hold under a condition

- Ending ok does not mean that the text was JSON: behind a complete value a string or comment that is never closed is
  left unread. `JsonText.OkIs` is the accepted language, and `JsonText.OkIsJson` says for which texts ok means JSON.
- The tree is not always the value that was parsed: its strings and keys are C strings and end at their first NUL.
  `TreeStrings.RootOfRun` and `TreeStrings.RootIsWhole` say when nothing is lost.
- Decoding a string that the lexer accepts can stop the program at an assertion. `JsonBody.SteadyIs` says for which
  strings it does not. Assertions are taken to be compiled in.
- A value that was parsed can be printed again only when no lone surrogate tore a UTF-8 sequence
  (`Reprint.ParsedIsPrintable`).
- `hx_get_sources` returns the newest responses only for hashes of at least eight octets; a shorter one is answered in
  the order of the digests (`Store.GetSources`, `Store.ShorterIsNotNewest`).
- Consolidating texts touches nothing outside the tree unless the root itself is a text; then it frees the texts behind
  it on its list (`Consolidate.ConsolidateTextNodes`).
- Lines do not depend on chunks only for inputs without a NUL before a line ending. In one chunk a line ending that
  directly follows a NUL is skipped, so the two lines become one. `LineFeed.QuietIs` gives the exact condition.
- `b58tobin` adds the leading ones to the size even when the octets fill the buffer. Then the size is larger than
  what was decoded. `Multihash.BeyondIs` says for which multihash texts this matters; those of full-length digests
  are not among them.
- Inserting a node beside itself, or replacing it by itself, destroys the tree (`NodeForest.NodeInsertBefore`,
  `NodeForest.NodeReplace`); with two different nodes it never does.
- A process works through all entries only when adds commit in order and no worker gives up: an add takes its id
  before its transaction, so a later id can commit first and be claimed (`CrawlQueue.SkippedIs`), and an entry that a
  worker gave up is stranded (`CrawlQueue.StrandedForGood`). Both wait for a restart.

## Left out

- JsonString.StringDecode: what a build without assertions does where they would stop the program is not modelled; the status of a run that stops is Stopped.
- JsonText.AcceptedIs: vertical tab and form feed count as white space, which RFC 8259 does not allow, and UTF-8 is what yajl_string_validate_utf8 takes for it.
- YajlLexer.Lexer.Lex: offsets, lines and texts of error messages, and yajl_lex_peek, are not modelled.
- YajlParser.Parser.DoParse: a client that cancels by returning false is not modelled; every callback returns true.
- YajlParser.Parser.DoParse: numbers are handed over as written; converting them to integers and doubles is not modelled.
- TreeStrings.TreeParseIs: the error text of yajl_tree_parse, yajl_tree_get and freeing a tree are not modelled.
- YajlTree.Context.Handle: values are immutable here, so that the arrays which the C code grows in place, and aliasing between them, are not visible; the two assertions on the root are preconditions.
- YajlGen.Gen.Open: after the depth limit the C object's depth is out of range; here it must not be used again.
- YajlGen.Gen.Close: when nothing is open the depth is out of range afterwards; here the object must not be used again.
- Base58.B58ToBin: the length is that of the text, where the C code calls strlen for a length of zero; b58check and its digest function are not modelled.
- Multihash.HashUriParseMultihash: when the size counts octets that were not decoded the outcome is Beyond, since what the memory behind them holds is not known; the pattern is the class of the alphabet and the least length, and the regular expression engine is not modelled.
- Multihash.HashUriFormat: the other URI forms (hash, prefix, named information, ssb, magnet) are not modelled.
- Freeing.SFreeNodes: freeing the strings in a node is not modelled.
- Consolidate.ConsolidateTextNodes: texts have no children, which nothing but hand-made trees violates.
- Inlines.Subject.SInsertEmph: siblings and their nesting are a value here; EmphasisNodes ties it to the pointers, one call at a time. The position and active fields of delimiters, used for links only, are left out.
- EmphasisNodes.WrapNodes: the inlines are of one allocator and the parent may hold inlines, as everywhere in the inline parser.
- LineFeed.Parser.ParserFeed: an empty chunk must not come after a CR, since the C code reads the first octet of the chunk then; what S_process_line does with a line is not modelled.
- Store.GetSources: libkvstore is not part of this model; its keys are taken to be ordered field by field, octets and numbers ascending.
- Store.GetHistory: results are keys; reading the stored fields of a response and libkvstore's encodings are not modelled. hx_get_recent and hx_get_times read the primary table in the same way.
- Store.AddIndexes: SURT normalisation is any function from URLs to SURTs that may fail.
- CrawlQueue.CrawlIsSafe: the clock does not go back, an add's time was read before it, and imports, which may store any time, are left out; so is 64-bit wrap-around of ids.
- CrawlQueue.SkippedIs: is about one process that starts with empty tables; after a restart ids start again, and an entry can share its key with one of an earlier process.
- CrawlQueue.Crawler.StartAdd: a URL has at most 1023 characters and a client at most 255, as with all callers, whose URLs come out of buffers of that size and whose clients are empty; longer ones are cut by the worker's buffers, and the worker would then look for an entry other than the one that it claimed.
- CrawlQueue.Crawler.QueuePeek: waiting, waking and sleeping are not modelled.
- Blocks, links, entities and renderers of cmark, pages, HTTP, command line tools and importers: they would add members without a harder property.
- Growth of buffers and failing allocation: buffers are sequences.
