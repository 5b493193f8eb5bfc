# Verified models of the CCSDK applications

Dafny models of the parts of the CCSDK `apps` repository whose correctness is hardest to see from the code, and proofs
of what they promise. `dafny verify dfyconfig.toml` checks everything.

**Keyed base64 (`cadi`, `Symm`).** `Codeset.dfy` is the lookup of characters: the analysis of a codeset into ranges
and the two lookup algorithms. `Base64.dfy` defines the encoding as section 4 of RFC 4648 does, `LineBreaks.dfy` says
what the inserted line breaks come to, and `Symm.dfy` has the streaming loops with their carried bits and ties them to
that definition. `KeyShuffle.dfy` is the fill loop that permutes a codeset under a key, `KeyCoverage.dfy` says exactly
which keys fill one, `PasswordFrame.dfy` is the random frame around a password, and `PasswordTrip.dfy` says exactly
when a password comes back. The results form one chain: the shuffle conserves the characters, so a filled codeset is a
permutation, so its index is invertible, so the codec undoes itself, so a password survives `enpass` and `depass`.

**The name allocator (`ms/neng`).** `NameTable.dfy` is the table with its queries, `SequenceFormat.dfy` the texts of
numbers and the maximum of a policy, `SequenceGenerator.dfy` one choice of a number, `NameAttempts.dfy` the retry
loop, `NamingPolicy.dfy` the search for naming models and `NameGenerator.dfy` the recursive composition of names and
one request. `Allocator.dfy` shows that for one family of names all of this refines a small allocator over a sequence
of booleans, whatever rows other families have in the table, and derives what holds over every run of requests and
releases. `SharedNumbers.dfy` says what becomes of that when element types share a family.

**Replayable streams (`cadi`).** `Capacitor.dfy` has the chunked byte store and the ring of sixteen buffers shared by
all stores, with an owner recorded for every buffer; `BufferedStream.dfy` the stream that can be marked and replayed.

**Books that must balance (`cadi`).** `MissLimiter.dfy` is the lock-out map and its cleaner, `ObjectPool.dfy` the
object pool.

**Text (`cadi`).** `Csv.dfy` is the CSV reader and writer, `CsvFile.dfy` takes them through the text of a file,
`Domains.dfy` the two ways to turn an identity into a namespace, with the splitter one of them uses.

Loops, arrays and objects of the program are loops, arrays and objects here. Each method is proved against a function
or a relation, and the properties are lemmas about these. Random bytes, clock readings, and the policies and their
property operations are parameters; Java's `int` arithmetic is modelled with its wrap-around where the program depends
on it (the line counter of the encoder, the draws of the key shuffle).

Where the code differs from its own comments or from what one would expect, the model follows the code:

- The comment in the branch that takes the range lookup calls the codeset too random for it. The test takes that
  branch when there are few ranges, that is, for an ordered codeset. The range lookup also skips blanks, the other one
  does not.
- The check for a line break before the second character of a third byte is true only for a split width of zero, so
  lines keep to the width exactly when 4 divides it (`LineBreaks.LinesFitIff`); with other widths some lines have one
  character more (`LineBreaks.LinesOfWidth`). With the largest `int` the line counter wraps around, but never at a place
  for a break (`LineBreaks.NeverBroken`).
- The fill loop of `obtain` need not fill the codeset. It always ends, at the latest when the product of counter and
  stride overflows and makes the array index negative (`KeyShuffle.LoopEnds`), and it ends with a codeset exactly for
  the keys whose draws to either side leave no gap between them (`KeyCoverage.OutcomeIff`); the draw that overflows
  first adds nothing (`KeyCoverage.OverflowReachesNothingNew`).
- `depass` takes every text that begins with the prefix for a prefixed one. With a codeset that can spell the prefix,
  on lines of at least three characters, some encodings do (`PasswordTrip.PasswordRoundTripIff`); the codesets here
  have no colon.
- `enpass` and `depass` ask whether the simple name of the class starts with `base64`. It is always `Symm`, so that
  branch never runs and is not modelled.
- The start number of a sequence is never recycled, since released numbers are looked for strictly above it
  (`Allocator.RequestFailsIff`).
- Released numbers are looked up by prefix and suffix, rows to reuse by element type and name. With two element types
  in one family a released number can be in use twice (`SharedNumbers.NumbersDistinctIff`).
- The retry loop makes one more attempt than it is allowed, whose result it throws away (`NameAttempts.AttemptsEnd`).
- A name remembered for an element's type is handed out, with the external key it was generated under, to every element
  of the type or to none: the first one decides (`NameGenerator.SameTypeApart`).
- A sequence whose scope is neither of the two known is written as the text `null` (`NameGenerator.NamedText`).
- The ring takes back sixteen buffers. One more takes the place of the oldest and moves the end past the start, so that
  the ring loses buffers and no longer gives them out in order (`Buffers.ReusedIff`).
- A second mark while storing does not move the mark. A read during replay into an offset other than zero continues at
  the wrong place when it runs over the end of the kept bytes: the bytes from underneath land at the number of kept
  ones, not after them (`BufferedStream.BufferedServletInputStream.Read`); a read of zero bytes drops all of them; a
  reset with nothing kept makes the next read throw.
- A cache of users made from another one shares its map of misses and its keys, but has no cleaner and so the shortest
  interval. The cleaner goes unnoticed if and only if all windows have the interval of the cache
  (`MissLimiter.UnobservableIff`).
- Objects that `validate` drops go on being counted, so a pool may stop keeping anything until it is drained
  (`ObjectPool.NothingKeptIff`).
- The CSV writer doubles apostrophes, which the reader leaves doubled, and leaves backslashes of unquoted cells alone,
  which the reader then takes for escapes. It writes the elements of an array without delimiters, quotes no other
  delimiter than the comma and the bar, and the reader takes an empty last cell for one only after a comma
  (`Csv.ReadBackIff`).
- Relaxed naming types lose only one ending, before dashes are taken out, so relaxing twice may give something else
  (`NamingPolicy.RelaxedTwiceIff`).

## Model

| member | source | states |
|---|---|---|
| Codeset.ConvertChar | cadi/core/src/main/java/org/onap/ccsdk/apps/cadi/Symm.java:449-498 | both lookups, `Ordered` over its ranges and `Unordered` over the codeset: the position of a character, -1 for skipped ones, an exception for others |
| Codeset.CompileCodeset | cadi/core/src/main/java/org/onap/ccsdk/apps/cadi/Symm.java:137-163 | the constructor loop builds the range table that the scan of runs defines, and takes it when it is at most a third as long as the codeset |
| Codeset.ScanSound | cadi/core/src/main/java/org/onap/ccsdk/apps/cadi/Symm.java:144-156 | whatever a part of the table answers is a genuine position of the character, in a run that reached the table |
| Codeset.ScanComplete | cadi/core/src/main/java/org/onap/ccsdk/apps/cadi/Symm.java:144-156 | with distinct characters every position of such a run is found |
| Codeset.BogusFirstRun | cadi/core/src/main/java/org/onap/ccsdk/apps/cadi/Symm.java:137-146 | a codeset that starts with code 1 continues the initial zero, so its first character is never found |
| Codeset.InvertsIff | cadi/core/src/main/java/org/onap/ccsdk/apps/cadi/Symm.java:449-498 | either lookup inverts codeset indexing if and only if the characters are distinct, none of them skipped, and, for the ranges, none in a non-final run with offset 32 and the first not of code 1 |
| Codeset.InvertsByCodes | cadi/core/src/main/java/org/onap/ccsdk/apps/cadi/Symm.java:449-498 | the same condition by character codes: distinct bytes other than 10, 13 and 61; for the ranges, no 32, no leading 1, and no run but the last whose codes are 32 above their positions |
| Codeset.OutsideIff | cadi/core/src/main/java/org/onap/ccsdk/apps/cadi/Symm.java:449-498 | a character outside a usable codeset is refused, but for the end of input, padding, line feed, carriage return and, with the ranges, the blank, which are passed over |
| Codeset.CompileIff | cadi/core/src/main/java/org/onap/ccsdk/apps/cadi/Symm.java:157-163 | the range table is taken exactly when it has at most one range for every three characters |
| Codeset.OrderedAgreesWithUnordered | cadi/core/src/main/java/org/onap/ccsdk/apps/cadi/Symm.java:449-498 | on such a codeset both lookups give the same answer on every input but the blank |
| Codeset.LookupBounded | cadi/core/src/main/java/org/onap/ccsdk/apps/cadi/Symm.java:457-497 | every answer for any codeset is below its length |
| Base64.UnsextetsSextets | cadi/core/src/main/java/org/onap/ccsdk/apps/cadi/Symm.java:342-432 | cutting bytes into 6-bit groups as section 4 of RFC 4648 does, and joining them again, is the identity |
| Base64.SextetAt | cadi/core/src/main/java/org/onap/ccsdk/apps/cadi/Symm.java:354-385 | the byte-by-byte view of the groups: which bits of which byte make up each written index |
| Base64.UnsextetsSnoc | cadi/core/src/main/java/org/onap/ccsdk/apps/cadi/Symm.java:413-428 | the byte-by-byte view of joining: which byte each further index completes |
| Base64.DecodedNoneIff | cadi/core/src/main/java/org/onap/ccsdk/apps/cadi/Symm.java:407-432 | decoding fails if and only if some character is refused |
| Base64.Ignored | cadi/core/src/main/java/org/onap/ccsdk/apps/cadi/Symm.java:407-432 | line feeds, carriage returns and padding, and with the ranges blanks, inserted anywhere leave what is decoded as it is |
| Base64.TextLength | cadi/core/src/main/java/org/onap/ccsdk/apps/cadi/Symm.java:355-387 | with padding the text has whole quartets of characters, without it as many as the bits of the input need |
| Base64.RoundTrip | cadi/core/src/main/java/org/onap/ccsdk/apps/cadi/Symm.java:342-432 | decoding the encoding gives back every byte sequence, for every split width, with or without padding, when the lookup inverts the codeset |
| Base64.RoundTripFails | cadi/core/src/main/java/org/onap/ccsdk/apps/cadi/Symm.java:342-432 | when the lookup misses one index, a three-byte input that uses it does not survive |
| Base64.RoundTripIff | cadi/core/src/main/java/org/onap/ccsdk/apps/cadi/Symm.java:342-432 | a codec undoes its own encoding on all inputs if and only if its codeset is usable |
| Base64.BuiltIsSixBit | cadi/core/src/main/java/org/onap/ccsdk/apps/cadi/Symm.java:407-432 | for 64 characters every index read is below 64, so no bits of it are cut off |
| LineBreaks.EncodedWellSplit | cadi/core/src/main/java/org/onap/ccsdk/apps/cadi/Symm.java:350-376 | when 4 divides the split width, every line but the last has exactly that many characters, the last at most that many and at least one unless the text is empty (76 characters: section 6.8 of RFC 2045) |
| LineBreaks.OverrunDoesNotFit | cadi/core/src/main/java/org/onap/ccsdk/apps/cadi/Symm.java:350-376 | when 4 does not divide the split width, some input makes a line longer than it |
| LineBreaks.LinesFitIff | cadi/core/src/main/java/org/onap/ccsdk/apps/cadi/Symm.java:350-376 | lines keep to the split width on all inputs if and only if 4 divides it |
| LineBreaks.LinesOfWidth | cadi/core/src/main/java/org/onap/ccsdk/apps/cadi/Symm.java:348-376 | for every positive width but the largest int, where each line ends: after `split` characters, or one more if that would part the last two characters of a quartet; and where the last line ends |
| LineBreaks.NeverBroken | cadi/core/src/main/java/org/onap/ccsdk/apps/cadi/Symm.java:95-97 | with the largest int for a width, as in the codec that is not to split lines, no input makes a line break: the counter wraps around without ever reaching it at a place for a break |
| LineBreaks.LayScattered | cadi/core/src/main/java/org/onap/ccsdk/apps/cadi/Symm.java:348-376 | without a positive width every character gets a line of its own, or with a negative one all but the fourth of each quartet |
| LineBreaks.EncodedCharacters | cadi/core/src/main/java/org/onap/ccsdk/apps/cadi/Symm.java:342-392 | line breaks aside, the text has the character of every six-bit group, and then, with padding, exactly the `=` that complete the last quartet; without padding nothing else |
| SymmCodec.Symm.constructor | cadi/core/src/main/java/org/onap/ccsdk/apps/cadi/Symm.java:131-164 | a codec takes the lookup that the analysis of its codeset settles for |
| SymmCodec.Symm.Derived | cadi/core/src/main/java/org/onap/ccsdk/apps/cadi/Symm.java:170-177 | a derived codec keeps split width and padding and always uses the linear lookup |
| SymmCodec.Symm.EncodeByte | cadi/core/src/main/java/org/onap/ccsdk/apps/cadi/Symm.java:348-376 | one byte: the characters written and the line counter after it |
| SymmCodec.Symm.Encode | cadi/core/src/main/java/org/onap/ccsdk/apps/cadi/Symm.java:342-392 | the streaming loop writes exactly the RFC 4648 text of its input over the codeset, with the line breaks |
| SymmCodec.Symm.Decode | cadi/core/src/main/java/org/onap/ccsdk/apps/cadi/Symm.java:407-432 | the streaming loop computes the joined 6-bit groups, or fails on the first unacceptable character |
| SymmCodec.Symm.Obtain | cadi/core/src/main/java/org/onap/ccsdk/apps/cadi/Symm.java:833-881 | for every key: the derived codec has a permutation of the codeset, whose last character stands where the first draw says, and an AES key window within the key; it fails for keys too short for that, and otherwise, within the bound, exactly for keys whose draws leave a gap |
| SymmCodec.Symm.Exec | cadi/core/src/main/java/org/onap/ccsdk/apps/cadi/Symm.java:213-224 | the AES key in use is the one set, or else cut from the codeset on first use, and never changes afterwards |
| SymmCodec.CodesetKeyAt | cadi/core/src/main/java/org/onap/ccsdk/apps/cadi/Symm.java:213-224 | that key is sixteen characters of the codeset, from the place that its first character and 47 give |
| SymmCodec.AlphabetKey | cadi/core/src/main/java/org/onap/ccsdk/apps/cadi/Symm.java:213-224 | for both alphabets these are the characters from Q to f |
| SymmCodec.KeyOffsetIs | cadi/core/src/main/java/org/onap/ccsdk/apps/cadi/Symm.java:870-875 | the AES key of a derived codec starts where byte 47 of the key and 137 give, wrapped around within the key; for keys of 282 bytes or more without wrapping |
| SymmCodec.Symm.Enpass | cadi/core/src/main/java/org/onap/ccsdk/apps/cadi/Symm.java:675-734 | frame, cipher and encoding one after the other, under a key that stays |
| SymmCodec.Symm.Depass | cadi/core/src/main/java/org/onap/ccsdk/apps/cadi/Symm.java:762-811 | decoding, cipher and frame undone one after the other |
| SymmCodec.PermutationUsable | cadi/core/src/main/java/org/onap/ccsdk/apps/cadi/Symm.java:833-868 | a permutation of a usable codeset is usable by the linear lookup |
| SymmCodec.DerivedRoundTrip | cadi/core/src/main/java/org/onap/ccsdk/apps/cadi/Symm.java:833-881 | whatever key it was derived from, a codec undoes its own encoding; for keys within the bound there is one if and only if the key fills the codeset |
| PasswordTrip.PasswordRoundTripIff | cadi/core/src/main/java/org/onap/ccsdk/apps/cadi/Symm.java:662-811 | for every codeset and width: `depass` undoes `enpass` for all ciphers, keys, passwords, random bytes and clocks if and only if the codeset is usable and, for texts without the prefix, lines are shorter than three characters or the codeset lacks a character of the prefix |
| PasswordTrip.HiddenIsEncrypted | cadi/core/src/main/java/org/onap/ccsdk/apps/cadi/Symm.java:675-734 | what is written stands for the encryption of the frame under the key |
| PasswordTrip.DepassDecrypts | cadi/core/src/main/java/org/onap/ccsdk/apps/cadi/Symm.java:762-811 | what is read is the decryption, under the key, of what the text stands for without the prefix |
| PasswordTrip.PrefixNeeds | cadi/core/src/main/java/org/onap/ccsdk/apps/cadi/Symm.java:762-764 | an encoding begins with the prefix only if lines hold three characters and the codeset has all four |
| PasswordTrip.MistakenForPrefix | cadi/core/src/main/java/org/onap/ccsdk/apps/cadi/Symm.java:762-764 | then some password, salt and clock give a text that is taken for a prefixed one, and the password is lost |
| PasswordTrip.UnusableLoses | cadi/core/src/main/java/org/onap/ccsdk/apps/cadi/Symm.java:675-811 | with a codeset that is not usable some cipher loses a password, with the prefix as without |
| PasswordTrip.DecodedRest | cadi/core/src/main/java/org/onap/ccsdk/apps/cadi/Symm.java:407-432 | what is decoded after the first four characters is the input after its first three bytes |
| PasswordTrip.DerivedPasswordsSurvive | cadi/core/src/main/java/org/onap/ccsdk/apps/cadi/Symm.java:662-881 | under every codec derived from the alphabet for URLs every password survives, with the prefix or without |
| PasswordTrip.NotWritten | cadi/core/src/main/java/org/onap/ccsdk/apps/cadi/Symm.java:342-392 | a character outside a usable codeset is not in an encoding, padding and line breaks apart |
| SymmCodec.AlphabetsUsable | cadi/core/src/main/java/org/onap/ccsdk/apps/cadi/Symm.java:95-111 | both alphabets suit either lookup and differ in their last two characters; the last one of the URL alphabet has the placeholder offset but is in the last run |
| SymmCodec.Keygen | cadi/core/src/main/java/org/onap/ccsdk/apps/cadi/Symm.java:506-512 | a key file is the encoding of 0x600 bytes over the alphabet for URLs, padded, in lines of 76 |
| SymmCodec.ObtainFromKeyFile | cadi/core/src/main/java/org/onap/ccsdk/apps/cadi/Symm.java:619-634 | a codec from a key file, or which of the two errors; for keys of up to 0x1_0000 bytes a codec exactly when the key fills the codeset |
| SymmCodec.KeyFileRoundTrip | cadi/core/src/main/java/org/onap/ccsdk/apps/cadi/Symm.java:506-634 | a generated key file is read as the bytes it was made from; they give a codec if and only if they fill the codeset, and it undoes its own encoding |
| KeyShuffle.Stride | cadi/core/src/main/java/org/onap/ccsdk/apps/cadi/Symm.java:522-526 | the stride is the magnitude of the thirteenth byte from the end of the key, modulo its length, or one more, so that its parity is not that of the length |
| KeyShuffle.Draw | cadi/core/src/main/java/org/onap/ccsdk/apps/cadi/Symm.java:532-534 | a draw is below the length of the codeset, or throws because the 32-bit product is negative |
| KeyShuffle.FittingDraw | cadi/core/src/main/java/org/onap/ccsdk/apps/cadi/Symm.java:532-534 | while the product fits an int, a draw is the magnitude of the key byte at counter times stride, modulo the length of the codeset |
| KeyShuffle.RoundFromKey | cadi/core/src/main/java/org/onap/ccsdk/apps/cadi/Symm.java:842-866 | round n by the key bytes: from the slot drawn with counter 18 + length % 59 + n, the next character goes to the nearest open slot, upwards in even rounds and downwards in odd ones, if there is one |
| KeyShuffle.FirstPlaced | cadi/core/src/main/java/org/onap/ccsdk/apps/cadi/Symm.java:842-866 | in every derived codeset the last character stands at the slot of the first draw |
| KeyShuffle.DrawsEnd | cadi/core/src/main/java/org/onap/ccsdk/apps/cadi/Symm.java:532-534 | of the two counters after the last whose product fits, at least one makes the draw throw |
| KeyShuffle.NearestRight | cadi/core/src/main/java/org/onap/ccsdk/apps/cadi/Symm.java:848-854 | the first open slot at or after the draw |
| KeyShuffle.NearestLeft | cadi/core/src/main/java/org/onap/ccsdk/apps/cadi/Symm.java:857-863 | the last open slot at or before the draw |
| KeyShuffle.RoundMissesIff | cadi/core/src/main/java/org/onap/ccsdk/apps/cadi/Symm.java:842-866 | a round places exactly one character, or changes nothing, the latter exactly when every slot on its side is taken |
| KeyShuffle.AfterConserves | cadi/core/src/main/java/org/onap/ccsdk/apps/cadi/Symm.java:842-866 | after every number of rounds the slots hold the characters placed and open slots for the others |
| KeyShuffle.FilledIsPermutation | cadi/core/src/main/java/org/onap/ccsdk/apps/cadi/Symm.java:842-867 | when the loop ends, the new codeset is a permutation of the old one |
| KeyShuffle.StopsOnce | cadi/core/src/main/java/org/onap/ccsdk/apps/cadi/Symm.java:842-866 | the loop ends in one state only |
| KeyShuffle.OpenSlotBound | cadi/core/src/main/java/org/onap/ccsdk/apps/cadi/Symm.java:842-866 | while a slot stays open, every draw that could reach it has placed a character |
| KeyShuffle.CoveringKeyFinishes | cadi/core/src/main/java/org/onap/ccsdk/apps/cadi/Symm.java:842-866 | for draws of any kind: if they reach every slot as often as there are slots, that many rounds fill the codeset |
| KeyShuffle.StuckDraw | cadi/core/src/main/java/org/onap/ccsdk/apps/cadi/Symm.java:522-534 | a concrete key of 0x88 bytes whose draws alternate between two places |
| KeyShuffle.StuckKeyNeverFills | cadi/core/src/main/java/org/onap/ccsdk/apps/cadi/Symm.java:842-866 | an instance: with that key the codeset is never filled, after any number of rounds |
| KeyShuffle.LoopEnds | cadi/core/src/main/java/org/onap/ccsdk/apps/cadi/Symm.java:842-866 | the fill loop ends for every key: filled, or in an exception when the 32-bit product overflows |
| KeyShuffle.Search | cadi/core/src/main/java/org/onap/ccsdk/apps/cadi/Symm.java:847-865 | both search loops find the nearest open slot on the side of the round, if there is one |
| KeyShuffle.FillRound | cadi/core/src/main/java/org/onap/ccsdk/apps/cadi/Symm.java:842-866 | one iteration in place, or the exception of the draw |
| KeyShuffle.FillSlots | cadi/core/src/main/java/org/onap/ccsdk/apps/cadi/Symm.java:833-866 | the loop in place ends, and a result is a permutation of the codeset |
| KeyCoverage.FillsIff | cadi/core/src/main/java/org/onap/ccsdk/apps/cadi/Symm.java:522-534 | while the products fit an `int`, the rounds of two passes through the key for each slot fill the codeset if and only if every slot is reached by some round of two passes |
| KeyCoverage.AllReachedIff | cadi/core/src/main/java/org/onap/ccsdk/apps/cadi/Symm.java:842-866 | every slot is reached if and only if the draws leave no gap: the lowest draw of a round to the right is at most one above the highest of a round to the left |
| KeyCoverage.OverflowReachesNothingNew | cadi/core/src/main/java/org/onap/ccsdk/apps/cadi/Symm.java:532-534 | the first draw that overflows, if it succeeds, is made with the first byte of the key, like some fitting draw of the same direction: it reaches no other slot |
| KeyCoverage.MissingNeverFills | cadi/core/src/main/java/org/onap/ccsdk/apps/cadi/Symm.java:842-866 | a slot that no round of the first two passes reaches stays open for every number of rounds, the overflow included |
| KeyCoverage.EverFillsIff | cadi/core/src/main/java/org/onap/ccsdk/apps/cadi/Symm.java:842-866 | some number of rounds fills the codeset if and only if every slot is reached, that is, if and only if the draws leave no gap |
| KeyCoverage.OutcomeIff | cadi/core/src/main/java/org/onap/ccsdk/apps/cadi/Symm.java:842-867 | the loop yields a codeset exactly for the keys whose draws leave no gap, and throws for all others |
| KeyCoverage.UsualKeysFit | cadi/core/src/main/java/org/onap/ccsdk/apps/cadi/Symm.java:506-534 | keys of up to 0x1_0000 bytes, generated ones included, keep to the bound for 64 characters |
| KeyCoverage.FirstDrawFills | cadi/core/src/main/java/org/onap/ccsdk/apps/cadi/Symm.java:842-866 | such keys exist: it is enough that the first draw is slot 0 |
| KeyCoverage.ZeroKeyFills | cadi/core/src/main/java/org/onap/ccsdk/apps/cadi/Symm.java:842-866 | a key of zero bytes of any length reaches every slot |
| PasswordFrame.UnframeFrame | cadi/core/src/main/java/org/onap/ccsdk/apps/cadi/Symm.java:685-711 | reading a frame gives back the password of any length and the low half of the time it was made at, under the high half of the time it is read at |
| PasswordFrame.TimeSurvivesIff | cadi/core/src/main/java/org/onap/ccsdk/apps/cadi/Symm.java:797-797 | the time survives if and only if both times share their high half |
| PasswordFrame.FrameLength | cadi/core/src/main/java/org/onap/ccsdk/apps/cadi/Symm.java:686-711 | the length of a frame from the salt and the password length |
| PasswordFrame.OddsInterleaved | cadi/core/src/main/java/org/onap/ccsdk/apps/cadi/Symm.java:701-704 | the bytes at odd places of the interleaving are the password |
| PasswordFrame.FrameParts | cadi/core/src/main/java/org/onap/ccsdk/apps/cadi/Symm.java:689-711 | where salt, clock, length and password lie: the header has eight bytes more than the salt skips |
| PasswordFrame.FrameBytes | cadi/core/src/main/java/org/onap/ccsdk/apps/cadi/Symm.java:685-711 | the frame byte by byte up to the password: salt, random bytes, clock from its most significant byte on, and length, and how long it is |
| PasswordFrame.FramePassword | cadi/core/src/main/java/org/onap/ccsdk/apps/cadi/Symm.java:698-711 | then the password, a short one interleaved with which random bytes and filled up with which |
| PasswordFrame.SaltAsks | cadi/core/src/main/java/org/onap/ccsdk/apps/cadi/Symm.java:687-695 | the salt asks for as many random bytes as the magnitudes of its three bytes leave modulo seven |
| PasswordFrame.UnreadIff | cadi/core/src/main/java/org/onap/ccsdk/apps/cadi/Symm.java:782-810 | reading any bytes: when the data ends too early, and which time and password come out otherwise, lengths of 128 and more being read as negative |
| PasswordFrame.WriteSalt | cadi/core/src/main/java/org/onap/ccsdk/apps/cadi/Symm.java:687-696 | the salt and the random bytes it asks for |
| PasswordFrame.WriteShort | cadi/core/src/main/java/org/onap/ccsdk/apps/cadi/Symm.java:700-708 | a short password interleaved and filled up |
| PasswordFrame.BuildFrame | cadi/core/src/main/java/org/onap/ccsdk/apps/cadi/Symm.java:685-711 | writing step by step gives the frame whose reading is proved to undo it |
| PasswordFrame.ParseFrame | cadi/core/src/main/java/org/onap/ccsdk/apps/cadi/Symm.java:782-810 | reading step by step is the reading that undoes the frame; data that ends too early is an error |
| SequenceFormat.ValueDigits | ms/neng/src/main/java/org/onap/ccsdk/apps/ms/neng/core/gen/SequenceFormatter.java:36-40 | the digits written stand for the number, in either base |
| SequenceFormat.ValuePad | ms/neng/src/main/java/org/onap/ccsdk/apps/ms/neng/core/gen/SequenceFormatter.java:37-37 | padding, zeros in front, leaves the number that a text stands for |
| SequenceFormat.FormatReadsBack | ms/neng/src/main/java/org/onap/ccsdk/apps/ms/neng/core/gen/SequenceFormatter.java:34-43 | a formatted number reads back as itself in its base, whatever the width |
| SequenceFormat.FormatInjective | ms/neng/src/main/java/org/onap/ccsdk/apps/ms/neng/core/gen/SequenceFormatter.java:34-43 | two numbers with the same text are the same, negative ones included |
| SequenceFormat.MinusIff | ms/neng/src/main/java/org/onap/ccsdk/apps/ms/neng/core/gen/SequenceFormatter.java:34-43 | a text has a minus sign if and only if its number is negative |
| SequenceFormat.NegativeWidth | ms/neng/src/main/java/org/onap/ccsdk/apps/ms/neng/core/gen/SequenceFormatter.java:34-43 | negative numbers fill the width, too, with the sign before the zeros in decimal and after them otherwise |
| SequenceFormat.FormatFailsIff | ms/neng/src/main/java/org/onap/ccsdk/apps/ms/neng/core/gen/SequenceFormatter.java:34-43 | formatting fails if and only if a decimal number is to have no width |
| SequenceFormat.DefaultMaxIsLargest | ms/neng/src/main/java/org/onap/ccsdk/apps/ms/neng/core/policy/PolicySequence.java:91-97 | the default maximum is exactly the largest number whose text keeps to the length |
| SequenceFormat.FormatOrder | ms/neng/src/main/java/org/onap/ccsdk/apps/ms/neng/core/gen/SequenceFormatter.java:34-43 | up to that maximum the order of the texts is the order of the numbers |
| SequenceFormat.DigitsLength | ms/neng/src/main/java/org/onap/ccsdk/apps/ms/neng/core/policy/PolicySequence.java:96-96 | a number has at most `e` digits if and only if it is below the power |
| SequenceFormat.LongReadsBack | ms/neng/src/main/java/org/onap/ccsdk/apps/ms/neng/core/policy/PolicySequence.java:85-85 | the text of a number, negative or not, is read as that number if it is within 64 bits, and refused otherwise |
| SequenceFormat.ParseForms | ms/neng/src/main/java/org/onap/ccsdk/apps/ms/neng/core/policy/PolicySequence.java:85-85 | a plus sign and capitals are read, an empty text and other characters are refused |
| SequenceFormat.WrittenMaxIsRead | ms/neng/src/main/java/org/onap/ccsdk/apps/ms/neng/core/policy/PolicySequence.java:83-90 | a maximum written in the base and length of the sequence is the maximum used |
| SequenceFormat.PolicySequence.GetMaxValue | ms/neng/src/main/java/org/onap/ccsdk/apps/ms/neng/core/policy/PolicySequence.java:77-100 | the maximum is worked out once and stays |
| NameTable.MaxWhere | ms/neng/src/main/java/org/onap/ccsdk/apps/ms/neng/persistence/repository/GeneratedNameRespository.java:53-58 | the largest sequence number among the rows that qualify, if any has one |
| NameTable.FindNextReleased | ms/neng/src/main/java/org/onap/ccsdk/apps/ms/neng/persistence/repository/GeneratedNameRespository.java:60-68 | the largest number above the bound among the released rows of the family, none if there is no such row |
| NameTable.MaxByColumns | ms/neng/src/main/java/org/onap/ccsdk/apps/ms/neng/persistence/repository/GeneratedNameRespository.java:53-58 | the maximum is that of the rows with this very prefix and suffix, released or not |
| NameTable.ReleasedByColumns | ms/neng/src/main/java/org/onap/ccsdk/apps/ms/neng/persistence/repository/GeneratedNameRespository.java:60-68 | the number released is the largest above the bound among the released rows with this very prefix and suffix |
| NameTable.OtherColumns | ms/neng/src/main/java/org/onap/ccsdk/apps/ms/neng/persistence/repository/GeneratedNameRespository.java:53-68 | a row with another prefix or suffix, added anywhere, changes neither query |
| NameTable.FindByName | ms/neng/src/main/java/org/onap/ccsdk/apps/ms/neng/persistence/repository/GeneratedNameRespository.java:34-37 | no row, the one row, or more than one for type, name and release flag |
| NameTable.KeyMakesSingle | ms/neng/src/main/java/org/onap/ccsdk/apps/ms/neng/persistence/repository/GeneratedNameRespository.java:34-37 | while type and name are a key, the query by type, name and release flag is never ambiguous |
| NameTable.KeyMeansOneHolder | ms/neng/src/main/java/org/onap/ccsdk/apps/ms/neng/core/validator/DbNameValidator.java:39-42 | while type and name are a key, two rows in use with the same type and name are the same row |
| NameTable.StoreKeepsKey | ms/neng/src/main/java/org/onap/ccsdk/apps/ms/neng/core/gen/NameGenerator.java:503-532 | storing a validated name, in place of a released row or as a new one, keeps type and name a key |
| NameTable.StoreKeepsUsed | ms/neng/src/main/java/org/onap/ccsdk/apps/ms/neng/core/gen/NameGenerator.java:515-531 | storing leaves every row in use as it is, and the new row is there |
| NameTable.Release | ms/neng/src/main/java/org/onap/ccsdk/apps/ms/neng/core/service/SpringServiceImpl.java:181-187 | every row with the id is marked released, no other row changes |
| NameTable.ReleasedRows | ms/neng/src/main/java/org/onap/ccsdk/apps/ms/neng/core/service/SpringServiceImpl.java:181-187 | releasing several ids in turn marks exactly the rows that have one of them |
| NameTable.EffectConcat | ms/neng/src/main/java/org/onap/ccsdk/apps/ms/neng/core/gen/NameGenerator.java:503-532 | stores one after the other are one run of validated stores |
| NameTable.EffectKeeps | ms/neng/src/main/java/org/onap/ccsdk/apps/ms/neng/core/gen/NameGenerator.java:503-532 | a run of validated stores keeps the key and the rows in use |
| NameTable.RunKeepsKey | ms/neng/src/main/java/org/onap/ccsdk/apps/ms/neng/core/service/SpringServiceImpl.java:112-187 | over every run of generations and releases, across all policies and prefixes, a type and name has at most one row |
| NameTable.RunSnoc | ms/neng/src/main/java/org/onap/ccsdk/apps/ms/neng/core/service/SpringServiceImpl.java:112-187 | each generation or release works on the table that those before it left |
| NameTable.Table.Validate | ms/neng/src/main/java/org/onap/ccsdk/apps/ms/neng/core/validator/DbNameValidator.java:39-42 | valid if and only if no row in use has this type and name; an exception if several do |
| NameTable.Table.StoreGeneratedName | ms/neng/src/main/java/org/onap/ccsdk/apps/ms/neng/core/gen/NameGenerator.java:503-532 | reuses the released row of the name, or adds one; fails only if there are several |
| NameTable.Table.ReleaseNames | ms/neng/src/main/java/org/onap/ccsdk/apps/ms/neng/core/service/SpringServiceImpl.java:181-187 | the loop over the elements of a release request marks exactly their rows |
| SequenceGenerator.Generate | ms/neng/src/main/java/org/onap/ccsdk/apps/ms/neng/core/seq/SequenceGenerator.java:52-100 | which number is chosen in each case, when a released one is recorded as tried, and which failure is thrown |
| SequenceGenerator.FreshAboveAll | ms/neng/src/main/java/org/onap/ccsdk/apps/ms/neng/core/seq/SequenceGenerator.java:63-99 | a fresh number of a first attempt is above every number of the family and within the maximum |
| SequenceGenerator.RecycledIsLargest | ms/neng/src/main/java/org/onap/ccsdk/apps/ms/neng/core/seq/SequenceGenerator.java:89-93 | a recycled number is the largest released one strictly above the bound |
| SequenceGenerator.RecyclesOnce | ms/neng/src/main/java/org/onap/ccsdk/apps/ms/neng/core/seq/SequenceGenerator.java:56-62 | after one recycled number the same transaction finds no second one |
| SequenceGenerator.ChoiceByColumns | ms/neng/src/main/java/org/onap/ccsdk/apps/ms/neng/core/seq/SequenceGenerator.java:52-100 | a row with another prefix or suffix, added anywhere, does not change what is chosen |
| SequenceGenerator.ChoiceAtFirst | ms/neng/src/main/java/org/onap/ccsdk/apps/ms/neng/core/seq/SequenceGenerator.java:62-69 | the first attempt takes the number after the largest, or the start, and falls back on the largest released one beyond the maximum |
| SequenceGenerator.ChoiceLater | ms/neng/src/main/java/org/onap/ccsdk/apps/ms/neng/core/seq/SequenceGenerator.java:70-99 | a later attempt goes on by the increment of the policy, or in an empty family by the increments of the service in turn, the last one repeating; without these it is refused |
| SequenceGenerator.ChoiceAfterReleased | ms/neng/src/main/java/org/onap/ccsdk/apps/ms/neng/core/seq/SequenceGenerator.java:56-62 | after a released number only a larger released one follows |
| NameAttempts.NameIsComposed | ms/neng/src/main/java/org/onap/ccsdk/apps/ms/neng/core/gen/NameGenerator.java:203-231 | the name assembled from the segments is prefix, number and suffix as they are stored |
| NameAttempts.AssembleItem | ms/neng/src/main/java/org/onap/ccsdk/apps/ms/neng/core/gen/NameGenerator.java:337-349 | one item stands for its text, or that of the number, which is `null` when none was chosen |
| NameAttempts.SuffixStored | ms/neng/src/main/java/org/onap/ccsdk/apps/ms/neng/core/gen/NameGenerator.java:203-219 | an empty suffix is stored as none |
| NameAttempts.AttemptsClimb | ms/neng/src/main/java/org/onap/ccsdk/apps/ms/neng/core/gen/NameGenerator.java:301-325 | the numbers tried rise strictly, but for a last one that may be recycled |
| NameAttempts.NumbersTriedDistinct | ms/neng/src/main/java/org/onap/ccsdk/apps/ms/neng/core/gen/NameGenerator.java:290-335 | the numbers tried for one name are pairwise distinct and at most one more than the attempts allowed |
| NameAttempts.CheckByRows | ms/neng/src/main/java/org/onap/ccsdk/apps/ms/neng/core/gen/NameGenerator.java:310-321 | a number leads to a free name if and only if no row in use of the type bears it, and to an exception if it has no text |
| NameAttempts.ResultValidated | ms/neng/src/main/java/org/onap/ccsdk/apps/ms/neng/core/gen/NameGenerator.java:312-334 | a name returned belongs to the last number tried, was found free, and came within the attempts allowed |
| NameAttempts.AttemptsEnd | ms/neng/src/main/java/org/onap/ccsdk/apps/ms/neng/core/gen/NameGenerator.java:290-335 | every number but the last leads to a name in use; how the last one, or a refused choice, or one attempt too many ends the attempts |
| NameAttempts.NumbersChosen | ms/neng/src/main/java/org/onap/ccsdk/apps/ms/neng/core/gen/NameGenerator.java:301-325 | each number tried is the one chosen after the number before |
| NameAttempts.NumbersStep | ms/neng/src/main/java/org/onap/ccsdk/apps/ms/neng/core/seq/SequenceGenerator.java:62-99 | from attempt to attempt the number goes up by the increment due, until beyond the maximum the largest released one is tried last |
| NameAttempts.OutcomeName | ms/neng/src/main/java/org/onap/ccsdk/apps/ms/neng/core/gen/NameGenerator.java:290-335 | the name is the result of the operation for prefix, formatted number and suffix, which are stored beside it |
| NameAttempts.PlainFree | ms/neng/src/main/java/org/onap/ccsdk/apps/ms/neng/core/gen/NameGenerator.java:318-334 | a name without a number is taken if and only if no row in use of its type bears it |
| NameAttempts.OutcomeValid | ms/neng/src/main/java/org/onap/ccsdk/apps/ms/neng/core/gen/NameGenerator.java:312-334 | a name returned is not in use |
| NameAttempts.ChooserGoesUp | ms/neng/src/main/java/org/onap/ccsdk/apps/ms/neng/core/seq/SequenceGenerator.java:52-100 | with positive increments every fresh number is above the one before, and released ones are at most the maximum of the table |
| NameAttempts.TryOnce | ms/neng/src/main/java/org/onap/ccsdk/apps/ms/neng/core/gen/NameGenerator.java:302-321 | one pass of the loop: number, text, name, validation |
| NameAttempts.Number | ms/neng/src/main/java/org/onap/ccsdk/apps/ms/neng/core/gen/NameGenerator.java:292-334 | the loop comes to what the sequence of attempts comes to |
| NameAttempts.GenerateNameWithSequences | ms/neng/src/main/java/org/onap/ccsdk/apps/ms/neng/core/gen/NameGenerator.java:290-335 | with a sequence, the outcome of the attempts; without, one validated name; a name returned is not in use |
| NamingPolicy.RelaxedIsUpper | ms/neng/src/main/java/org/onap/ccsdk/apps/ms/neng/core/policy/PolicyReader.java:190-201 | a relaxed naming type has no lower-case letters |
| NamingPolicy.RelaxedPlain | ms/neng/src/main/java/org/onap/ccsdk/apps/ms/neng/core/policy/PolicyReader.java:190-201 | a relaxed naming type has no dash and no underscore |
| NamingPolicy.RelaxedAlike | ms/neng/src/main/java/org/onap/ccsdk/apps/ms/neng/core/policy/PolicyReader.java:190-201 | types that differ in case, dashes and underscores only have the same relaxed type, where no NAME at the end is taken away |
| NamingPolicy.RelaxedEnding | ms/neng/src/main/java/org/onap/ccsdk/apps/ms/neng/core/policy/PolicyReader.java:190-201 | so have a type and the same type with NAME added in any case |
| NamingPolicy.RelaxedKeeps | ms/neng/src/main/java/org/onap/ccsdk/apps/ms/neng/core/policy/PolicyReader.java:190-201 | a type without any of these is only put into upper case |
| NamingPolicy.UpperLetters | ms/neng/src/main/java/org/onap/ccsdk/apps/ms/neng/core/policy/PolicyReader.java:194-194 | small letters are replaced by their capitals, nothing else is |
| NamingPolicy.RelaxedTwiceIff | ms/neng/src/main/java/org/onap/ccsdk/apps/ms/neng/core/policy/PolicyReader.java:190-201 | relaxing twice is relaxing once if and only if the relaxed type does not end in NAME |
| NamingPolicy.FoundTypeMatches | ms/neng/src/main/java/org/onap/ccsdk/apps/ms/neng/core/policy/PolicyReader.java:99-126 | the model found for an item, by either loop, has the same relaxed type as the item, which makes the relaxed type a sound key of the memo |
| NamingPolicy.FoundFirst | ms/neng/src/main/java/org/onap/ccsdk/apps/ms/neng/core/policy/PolicyReader.java:99-126 | it is the first model with the type of the item up to case, or if there is none the first with its relaxed type; none is found only if there is none |
| NamingPolicy.NamingModelRelaxed | ms/neng/src/main/java/org/onap/ccsdk/apps/ms/neng/core/policy/PolicyReader.java:99-126 | the first model whose type matches but for case, else the first whose relaxed type does |
| NamingPolicy.NamingModelOf | ms/neng/src/main/java/org/onap/ccsdk/apps/ms/neng/core/policy/PolicyReader.java:73-85 | the first model of exactly this type |
| NamingPolicy.OwnValueOrder | ms/neng/src/main/java/org/onap/ccsdk/apps/ms/neng/core/gen/NameGenerator.java:402-412 | the value of the policy comes before that of the request, and that before the one under a similar key; placeholders count for nothing |
| NamingPolicy.PlaceholderIff | ms/neng/src/main/java/org/onap/ccsdk/apps/ms/neng/core/policy/PolicyReader.java:232-240 | a placeholder is what the regular expression matches: a dollar sign and braces around any text, and anything after them, on one line |
| NamingPolicy.TypeOfIs | ms/neng/src/main/java/org/onap/ccsdk/apps/ms/neng/core/policy/PolicyReader.java:232-240 | a model has no type if that is missing or a placeholder |
| NamingPolicy.ElementOfType | ms/neng/src/main/java/org/onap/ccsdk/apps/ms/neng/core/gen/NameGenerator.java:435-446 | a recursive call works with the values of the first request element of the type, or those of the current one without its key and resource name |
| NameGenerator.Session.ElementFor | ms/neng/src/main/java/org/onap/ccsdk/apps/ms/neng/core/gen/NameGenerator.java:435-446 | the first request element of a type, or the current one without key and resource name, under that type |
| NameGenerator.Session.GenerateNew | ms/neng/src/main/java/org/onap/ccsdk/apps/ms/neng/core/gen/NameGenerator.java:233-288 | when no model and element that the request comes to are followed in a circle it ends; the name is what the attempts come to for the values filled in, it is stored last and remembered under its relaxed type; other remembered names stay; a recursive call is made only for types not remembered; it fails only for a cause in the recipe or in those it refers to |
| NameGenerator.Session.FillIn | ms/neng/src/main/java/org/onap/ccsdk/apps/ms/neng/core/gen/NameGenerator.java:259-280 | every item has its own value, or the name remembered for the type it refers to, finished by the property operations; an item is missing only if these take its value away or it refers to nothing; without references exactly the own values |
| NameGenerator.Session.GenerateNonSequenceValue | ms/neng/src/main/java/org/onap/ccsdk/apps/ms/neng/core/gen/NameGenerator.java:402-424 | property, request and relaxed request values, in this order, come before recursion, and then nothing is generated |
| NameGenerator.Session.GenerateValueRecursively | ms/neng/src/main/java/org/onap/ccsdk/apps/ms/neng/core/gen/NameGenerator.java:426-459 | a remembered type is never generated again: its remembered name is the value, and no row is stored; any other is made by the model found for the item, for the first element of its type, and is nothing only if the name is a placeholder; it fails only for a cause in that model |
| NameGenerator.NameFilled | ms/neng/src/main/java/org/onap/ccsdk/apps/ms/neng/core/gen/NameGenerator.java:281-281 | the attempts are made with the sequence of the policy |
| NameGenerator.NamedText | ms/neng/src/main/java/org/onap/ccsdk/apps/ms/neng/core/gen/NameGenerator.java:290-349 | the name is the result of the operation for the texts of the recipe, the sequence standing for its formatted number, or for `null` if its scope is neither of the two known |
| NameGenerator.QuestFields | ms/neng/src/main/java/org/onap/ccsdk/apps/ms/neng/core/policy/PolicyReader.java:206-227 | start, increment, type, length and maximum are those of the policy, and at least one attempt is made |
| NameGenerator.Session.Keep | ms/neng/src/main/java/org/onap/ccsdk/apps/ms/neng/core/gen/NameGenerator.java:283-287 | the row stored, the answer and the memo entry belong to the same name |
| NameGenerator.Session.Generate | ms/neng/src/main/java/org/onap/ccsdk/apps/ms/neng/core/gen/NameGenerator.java:117-141 | a name generated on behalf of an earlier element is handed out unchanged, the exact type looked up first, and only as long as none was generated for an element of this type; otherwise a new one is made by the model of the policy, and the type is on the list from then on; when and why it fails |
| NameGenerator.Session.GenerateByPolicy | ms/neng/src/main/java/org/onap/ccsdk/apps/ms/neng/core/gen/NameGenerator.java:233-247 | a new name is made by the first model that the policy has for exactly the type; without policy or model, and otherwise for which cause, it fails |
| NameGenerator.GenNetworkElementNames | ms/neng/src/main/java/org/onap/ccsdk/apps/ms/neng/core/service/SpringServiceImpl.java:112-143 | a request stores all its names or none; elements are answered in order, each with a name of its own or a remembered one; once a name was generated for a type, every later element of the type gets another one, in a row with its own external key; names handed out are in use, rows in use stay, the key stays unique; a failure has its cause |
| NameGenerator.SameTypeApart | ms/neng/src/main/java/org/onap/ccsdk/apps/ms/neng/core/gen/NameGenerator.java:117-141 | the first element of a type decides: all of them get names of their own, pairwise different, or all are answered with remembered ones |
| NameGenerator.OwnRow | ms/neng/src/main/java/org/onap/ccsdk/apps/ms/neng/core/gen/NameGenerator.java:283-287 | a generated name stays until the end of the request in a row of its type with the external key of its element, and is handed out with that key and the resource name |
| NameGenerator.NewName | ms/neng/src/main/java/org/onap/ccsdk/apps/ms/neng/core/gen/NameGenerator.java:310-321 | a generated name differs from all names in use of its type |
| NameGenerator.FirstIsNew | ms/neng/src/main/java/org/onap/ccsdk/apps/ms/neng/core/gen/NameGenerator.java:117-141 | the first element of a request gets a name of its own |
| NameGenerator.CompleteFailsInAttempts | ms/neng/src/main/java/org/onap/ccsdk/apps/ms/neng/core/gen/NameGenerator.java:241-459 | when every model has a type and a recipe and all properties come to a value, a generation however deep fails only in the attempts for one of its recipes |
| NameGenerator.AloneFailsInAttempts | ms/neng/src/main/java/org/onap/ccsdk/apps/ms/neng/core/gen/NameGenerator.java:241-335 | so does one whose recipe refers to no other |
| NameGenerator.StepStore | ms/neng/src/main/java/org/onap/ccsdk/apps/ms/neng/core/gen/NameGenerator.java:283-287 | storing and remembering keep every remembered name held by a row in use |
| Allocator.NameInjective | ms/neng/src/main/java/org/onap/ccsdk/apps/ms/neng/core/gen/SequenceFormatter.java:34-43 | two numbers with the same name are the same |
| Allocator.DenseMax | ms/neng/src/main/java/org/onap/ccsdk/apps/ms/neng/persistence/repository/GeneratedNameRespository.java:53-58 | the largest number in a dense family is that of its last slot |
| Allocator.DenseReleased | ms/neng/src/main/java/org/onap/ccsdk/apps/ms/neng/persistence/repository/GeneratedNameRespository.java:60-68 | the number recycled is that of the highest free slot but the first |
| Allocator.RequestRefines | ms/neng/src/main/java/org/onap/ccsdk/apps/ms/neng/core/seq/SequenceGenerator.java:52-100 | a request is served on its first attempt by the next slot, or the highest free one, or fails: the concrete allocator refines one over booleans |
| Allocator.StoreRefines | ms/neng/src/main/java/org/onap/ccsdk/apps/ms/neng/core/gen/NameGenerator.java:503-532 | storing takes that slot: appended, or in place of the released row |
| Allocator.OutcomeProjects | ms/neng/src/main/java/org/onap/ccsdk/apps/ms/neng/persistence/repository/GeneratedNameRespository.java:34-68 | rows of other families do not change what a request gets |
| Allocator.StoreProjects | ms/neng/src/main/java/org/onap/ccsdk/apps/ms/neng/core/gen/NameGenerator.java:503-532 | storing a name of the family stores it among the rows of the family as if they were alone |
| Allocator.AskKeepsSettled | ms/neng/src/main/java/org/onap/ccsdk/apps/ms/neng/core/gen/NameGenerator.java:290-335 | in a table with rows of others a request takes the slot the allocator gives, or changes nothing |
| Allocator.Served | ms/neng/src/main/java/org/onap/ccsdk/apps/ms/neng/core/service/SpringServiceImpl.java:112-187 | a request adds the row of its outcome or changes nothing, a release marks exactly the rows with its ids, a row stored for others is there |
| Allocator.ServeAllSnoc | ms/neng/src/main/java/org/onap/ccsdk/apps/ms/neng/core/service/SpringServiceImpl.java:112-187 | each demand is served over the table that those before it left |
| Allocator.RunStaysDense | ms/neng/src/main/java/org/onap/ccsdk/apps/ms/neng/core/service/SpringServiceImpl.java:112-187 | over every run of requests, releases and rows stored for others, the `k`-th row of the family holds number start + k * increment |
| Allocator.RunSafety | ms/neng/src/main/java/org/onap/ccsdk/apps/ms/neng/core/service/SpringServiceImpl.java:112-187 | over every run, whatever others store, all numbers of the family are on the grid and within the maximum, no two of its rows share number or name, and they do not exceed the capacity |
| Allocator.RequestFailsIff | ms/neng/src/main/java/org/onap/ccsdk/apps/ms/neng/core/seq/SequenceGenerator.java:89-97 | in every reachable table a request fails exactly when the next number passes the maximum and nothing of the family but the start number is released |
| Allocator.RequestIsServed | ms/neng/src/main/java/org/onap/ccsdk/apps/ms/neng/core/service/SpringServiceImpl.java:112-143 | a request for one element whose numbered recipe refers to no other is one step of the allocator, and its name that of the next slot |
| SharedNumbers.OtherTypeTakesSlot | ms/neng/src/main/java/org/onap/ccsdk/apps/ms/neng/persistence/repository/GeneratedNameRespository.java:60-68 | a request of another element type for the same prefix and suffix gets the released number, in a row of its own |
| SharedNumbers.HandedOutTwice | ms/neng/src/main/java/org/onap/ccsdk/apps/ms/neng/persistence/repository/GeneratedNameRespository.java:53-75 | asked again for the first type, the same number is handed out once more: two rows in use have it |
| SharedNumbers.NumbersDistinctIff | ms/neng/src/main/java/org/onap/ccsdk/apps/ms/neng/core/service/SpringServiceImpl.java:112-187 | over all runs of requests and releases numbers in use are distinct if and only if one element type uses the family or the policy has room for one number only |
| Buffers.Ring.RingGet | cadi/core/src/main/java/org/onap/ccsdk/apps/cadi/Capacitor.java:219-232 | a buffer comes from the start slot of the ring, which is emptied and left behind, or is new if that slot is empty; it belongs to the next chunk of the caller; every other buffer stays as it is |
| Buffers.Ring.RingPut | cadi/core/src/main/java/org/onap/ccsdk/apps/cadi/Capacitor.java:234-239 | a buffer goes from a chunk to the end slot of the ring, what was there is dropped, and the end moves on |
| Buffers.ReusedIff | cadi/core/src/main/java/org/onap/ccsdk/apps/cadi/Capacitor.java:219-239 | buffers put back into an empty ring are found again in order if and only if there are at most sixteen of them; the seventeenth takes the place of the first |
| Buffers.PutBackAt | cadi/core/src/main/java/org/onap/ccsdk/apps/cadi/Capacitor.java:234-239 | up to sixteen buffers put back lie one after the other from the end slot on |
| Buffers.NoSharing | cadi/core/src/main/java/org/onap/ccsdk/apps/cadi/Capacitor.java:43-45 | no buffer is in two slots, in two capacitors, in two chunks of one, or in a slot and a capacitor; put, setForRead, reset and done keep it so in any order |
| Buffers.OthersUndisturbed | cadi/core/src/main/java/org/onap/ccsdk/apps/cadi/Capacitor.java:43-45 | what one capacitor does leaves the contents and the unread bytes of every other as they are |
| Buffers.Capacitor.constructor | cadi/core/src/main/java/org/onap/ccsdk/apps/cadi/Capacitor.java:37-41 | a new capacitor is empty |
| Buffers.Capacitor.PutByte | cadi/core/src/main/java/org/onap/ccsdk/apps/cadi/Capacitor.java:48-54 | one byte is appended |
| Buffers.Capacitor.ChunksNeeded | cadi/core/src/main/java/org/onap/ccsdk/apps/cadi/Capacitor.java:48-54 | the contents lie in chunks of 256 bytes, as many as they need or one more when they fill the others |
| Buffers.Capacitor.Put | cadi/core/src/main/java/org/onap/ccsdk/apps/cadi/Capacitor.java:107-127 | the slice is appended to the contents, across chunks |
| Buffers.Capacitor.PutRest | cadi/core/src/main/java/org/onap/ccsdk/apps/cadi/Capacitor.java:112-126 | the loop of the bulk put appends the rest of the slice, and leaves room in the last chunk |
| Buffers.Capacitor.SetForRead | cadi/core/src/main/java/org/onap/ccsdk/apps/cadi/Capacitor.java:132-143 | all contents are to be read |
| Buffers.Capacitor.Reset | cadi/core/src/main/java/org/onap/ccsdk/apps/cadi/Capacitor.java:203-214 | all contents are to be read again |
| Buffers.Capacitor.Read | cadi/core/src/main/java/org/onap/ccsdk/apps/cadi/Capacitor.java:76-98 | as many bytes as asked for or left, from the front of the unread ones, across chunks and empty ones; -1 when there is no chunk |
| Buffers.Capacitor.ReadLoop | cadi/core/src/main/java/org/onap/ccsdk/apps/cadi/Capacitor.java:78-97 | the loop of the bulk read delivers as many unread bytes as asked for or left |
| Buffers.Capacitor.Available | cadi/core/src/main/java/org/onap/ccsdk/apps/cadi/Capacitor.java:161-167 | in read mode exactly the number of unread bytes |
| Buffers.Capacitor.Done | cadi/core/src/main/java/org/onap/ccsdk/apps/cadi/Capacitor.java:148-154 | all chunks are put back into the ring, in order, and the capacitor is empty |
| BufferedStream.BufferedServletInputStream.constructor | cadi/core/src/main/java/org/onap/ccsdk/apps/cadi/BufferedServletInputStream.java:58-61 | a fresh stream reads the stream underneath |
| BufferedStream.BufferedServletInputStream.Read | cadi/core/src/main/java/org/onap/ccsdk/apps/cadi/BufferedServletInputStream.java:93-123 | the next bytes that are due, -1 only at the end; kept while storing; in place at offset 0 or within the kept bytes, and otherwise where it says which of them land; the kept bytes are given up exactly when a read finds none left or asks for nothing; it throws exactly when nothing was kept |
| BufferedStream.BufferedServletInputStream.ReadPlain | cadi/core/src/main/java/org/onap/ccsdk/apps/cadi/BufferedServletInputStream.java:95-96 | without a capacitor the bytes of the stream underneath |
| BufferedStream.BufferedServletInputStream.ReadStoring | cadi/core/src/main/java/org/onap/ccsdk/apps/cadi/BufferedServletInputStream.java:99-104 | what is read is kept: kept and future bytes together stay the same |
| BufferedStream.BufferedServletInputStream.ReadReplaying | cadi/core/src/main/java/org/onap/ccsdk/apps/cadi/BufferedServletInputStream.java:105-119 | kept bytes first, from the offset on, then those underneath from the number of kept ones on; a read of nothing skips the kept bytes |
| BufferedStream.BufferedServletInputStream.Mark | cadi/core/src/main/java/org/onap/ccsdk/apps/cadi/BufferedServletInputStream.java:162-172 | what is kept after a mark in each state: nothing, or all since the first mark; when it throws |
| BufferedStream.BufferedServletInputStream.Reset | cadi/core/src/main/java/org/onap/ccsdk/apps/cadi/BufferedServletInputStream.java:182-194 | all kept bytes are due again, before what the stream underneath has left; when it throws |
| BufferedStream.ReadAll | cadi/core/src/main/java/org/onap/ccsdk/apps/cadi/BufferedServletInputStream.java:93-123 | reads of any sizes deliver the future bytes in order, and all of them at the end |
| BufferedStream.Replayed | cadi/core/src/main/java/org/onap/ccsdk/apps/cadi/BufferedServletInputStream.java:88-194 | mark, any reads, reset, any reads: the second pass delivers the stream from its start, all of it when read to the end |
| MissLimiter.Miss.MayContinue | cadi/core/src/main/java/org/onap/ccsdk/apps/cadi/AbsUserCache.java:433-442 | when another try is allowed, and the record after it |
| MissLimiter.MissMap.Put | cadi/core/src/main/java/org/onap/ccsdk/apps/cadi/AbsUserCache.java:154-157 | a window is recorded under its key, the others stay |
| MissLimiter.AbsUserCache.constructor | cadi/core/src/main/java/org/onap/ccsdk/apps/cadi/AbsUserCache.java:64-90 | a cache uses the map of misses shared by all; the interval of the cleaner is at least a minute |
| MissLimiter.AbsUserCache.From | cadi/core/src/main/java/org/onap/ccsdk/apps/cadi/AbsUserCache.java:93-103 | a cache made from another one shares its map and has no cleaner, and so the shortest interval |
| MissLimiter.AbsUserCache.AddMiss | cadi/core/src/main/java/org/onap/ccsdk/apps/cadi/AbsUserCache.java:146-160 | the answer and the windows after an attempt, first ones included |
| MissLimiter.MissMap.CleanKey | cadi/core/src/main/java/org/onap/ccsdk/apps/cadi/AbsUserCache.java:373-381 | a window that is over is removed, nothing else |
| MissLimiter.AbsUserCache.CleanMisses | cadi/core/src/main/java/org/onap/ccsdk/apps/cadi/AbsUserCache.java:366-387 | the loop is a run of single sweeps, one reading of the clock for each key |
| MissLimiter.CleanerUnobservable | cadi/core/src/main/java/org/onap/ccsdk/apps/cadi/AbsUserCache.java:366-387 | with one interval and a clock that does not go back, every caller gets the answers it would get without the cleaner, however its steps are interleaved |
| MissLimiter.CleanerObservable | cadi/core/src/main/java/org/onap/ccsdk/apps/cadi/AbsUserCache.java:93-156 | for every window opened with another interval there is a sweep after which the cleaner changes an answer |
| MissLimiter.UnobservableIff | cadi/core/src/main/java/org/onap/ccsdk/apps/cadi/AbsUserCache.java:366-444 | for all windows, intervals and times: no run tells the cleaner from none if and only if all windows have the interval of the cache |
| MissLimiter.RateBound | cadi/core/src/main/java/org/onap/ccsdk/apps/cadi/AbsUserCache.java:414-444 | in the time D from its first attempt a key is allowed at most 3 * (1 + D / (interval + 1)) attempts, whatever the cleaner does |
| MissLimiter.RateReached | cadi/core/src/main/java/org/onap/ccsdk/apps/cadi/AbsUserCache.java:414-444 | that many attempts can be allowed, for every number of windows |
| ObjectPool.RunBalanced | cadi/core/src/main/java/org/onap/ccsdk/apps/cadi/util/Pool.java:63-386 | over every run: `used` is idle plus in use, `count` is idle plus dropped by `validate` since the last drain, and every object created is idle, in use or destroyed, in one of these only and once |
| ObjectPool.FirstInFirstOut | cadi/core/src/main/java/org/onap/ccsdk/apps/cadi/util/Pool.java:213-274 | over every run: of any two idle objects handed out, the one handed out first was put in first |
| ObjectPool.GotBalanced | cadi/core/src/main/java/org/onap/ccsdk/apps/cadi/util/Pool.java:213-226 | the object handed out was neither in use nor destroyed |
| ObjectPool.DroppedAreBad | cadi/core/src/main/java/org/onap/ccsdk/apps/cadi/util/Pool.java:236-249 | `validate` leaves exactly the good idle objects |
| ObjectPool.NothingKeptIff | cadi/core/src/main/java/org/onap/ccsdk/apps/cadi/util/Pool.java:236-274 | no run without a drain ends with an object given back and kept if and only if `validate` has dropped as many objects as may be kept; then every one given back is destroyed |
| ObjectPool.GivenBack | cadi/core/src/main/java/org/onap/ccsdk/apps/cadi/util/Pool.java:263-274 | while idle and dropped objects together are fewer than the range, an object given back is the newest idle one and none is destroyed; otherwise it is destroyed and the idle ones stay |
| ObjectPool.TakenOut | cadi/core/src/main/java/org/onap/ccsdk/apps/cadi/util/Pool.java:213-226 | a request takes the oldest idle object, or creates one when there is none |
| ObjectPool.ThrownAway | cadi/core/src/main/java/org/onap/ccsdk/apps/cadi/util/Pool.java:380-386 | a tossed object is destroyed, the idle ones stay |
| ObjectPool.PutIn | cadi/core/src/main/java/org/onap/ccsdk/apps/cadi/util/Pool.java:159-172 | priming puts the objects made in front, and the first one for less than six lowers the range |
| ObjectPool.SortedOut | cadi/core/src/main/java/org/onap/ccsdk/apps/cadi/util/Pool.java:236-249 | validating destroys exactly the idle objects gone bad, keeps the others in order, and counts them all |
| ObjectPool.DrainedOut | cadi/core/src/main/java/org/onap/ccsdk/apps/cadi/util/Pool.java:184-193 | draining destroys exactly the idle objects, the newest first, and nothing that is in use |
| ObjectPool.Pool.Prime | cadi/core/src/main/java/org/onap/ccsdk/apps/cadi/util/Pool.java:159-172 | the objects made before the creator fails are idle, and a small prime lowers the default range |
| ObjectPool.Pool.Get | cadi/core/src/main/java/org/onap/ccsdk/apps/cadi/util/Pool.java:213-226 | the object idle for longest, or a new one; nothing changes when the creator fails |
| ObjectPool.Pool.Offer | cadi/core/src/main/java/org/onap/ccsdk/apps/cadi/util/Pool.java:263-274 | put in front of the list and not destroyed if the count is below the range, otherwise destroyed and the list stays |
| ObjectPool.Pool.Validate | cadi/core/src/main/java/org/onap/ccsdk/apps/cadi/util/Pool.java:236-249 | bad idle objects are destroyed and go on being counted; true if and only if there were none |
| ObjectPool.Pool.Drain | cadi/core/src/main/java/org/onap/ccsdk/apps/cadi/util/Pool.java:184-193 | all idle objects are destroyed, oldest last, and the count starts again |
| ObjectPool.Pool.Destroy | cadi/core/src/main/java/org/onap/ccsdk/apps/cadi/util/Pool.java:281-287 | one object destroyed, one less used |
| ObjectPool.Pooled.Done | cadi/core/src/main/java/org/onap/ccsdk/apps/cadi/util/Pool.java:363-367 | gives the object back: listed first, or destroyed, as the count says |
| ObjectPool.Pooled.Toss | cadi/core/src/main/java/org/onap/ccsdk/apps/cadi/util/Pool.java:380-386 | destroys the object and detaches it from the pool |
| Csv.ParseLine | cadi/core/src/main/java/org/onap/ccsdk/apps/cadi/util/CSV.java:98-152 | the loop of the reader computes the automaton, with its look-ahead and its escapes that last until they are used |
| Csv.RowsInOrder | cadi/core/src/main/java/org/onap/ccsdk/apps/cadi/util/CSV.java:89-163 | the visitor gets the rows of the lines in order: all of them, or those up to one where it stops or fails |
| Csv.ReadUpTo | cadi/core/src/main/java/org/onap/ccsdk/apps/cadi/util/CSV.java:89-163 | the reading ends at the first row where the visitor asks to stop or throws, CADI exceptions being passed over if all rows are to be processed, and nowhere else |
| Csv.PassedOverIff | cadi/core/src/main/java/org/onap/ccsdk/apps/cadi/util/CSV.java:94-95 | a line is passed over if and only if it has nothing but blanks, or a number sign after them |
| Csv.CSV.constructor | cadi/core/src/main/java/org/onap/ccsdk/apps/cadi/util/CSV.java:45-55 | a reader splits at commas, and stops at the first failure |
| Csv.CSV.Visit | cadi/core/src/main/java/org/onap/ccsdk/apps/cadi/util/CSV.java:89-163 | every line that is neither empty nor a comment after trimming is given to the visitor as a row, until it stops; its exceptions end the reading or are passed over |
| Csv.Writer.Print | cadi/core/src/main/java/org/onap/ccsdk/apps/cadi/util/CSV.java:237-248 | a cell with a comma, bar or quote is quoted, with quotes, apostrophes and backslashes doubled; others are written as they are |
| Csv.QuotedIff | cadi/core/src/main/java/org/onap/ccsdk/apps/cadi/util/CSV.java:237-248 | a cell is quoted if and only if it has a comma, a bar or a quote and no character that ends a line; others are written as they are |
| Csv.Writer.PrintAll | cadi/core/src/main/java/org/onap/ccsdk/apps/cadi/util/CSV.java:225-228 | the elements of an array are written one after the other, without delimiters |
| Csv.RunTogether | cadi/core/src/main/java/org/onap/ccsdk/apps/cadi/util/CSV.java:225-228 | the elements of an array run together, each printed as a cell |
| Csv.SeparatedGrows | cadi/core/src/main/java/org/onap/ccsdk/apps/cadi/util/CSV.java:215-235 | the delimiter comes between two objects, and only there; a null adds nothing |
| Csv.Writer.Row | cadi/core/src/main/java/org/onap/ccsdk/apps/cadi/util/CSV.java:215-235 | a row is one line, null cells being empty and the elements of an array running together; an empty row is none |
| Csv.SeparatedIsLine | cadi/core/src/main/java/org/onap/ccsdk/apps/cadi/util/CSV.java:215-235 | without arrays, what is written is the line of the cells |
| Csv.QuotedIsRead | cadi/core/src/main/java/org/onap/ccsdk/apps/cadi/util/CSV.java:104-147 | quoted text is read back but for apostrophes, which stay doubled |
| Csv.PlainIsRead | cadi/core/src/main/java/org/onap/ccsdk/apps/cadi/util/CSV.java:104-147 | text without quotes and delimiters is read in any state outside quotes: as it is, but for escapes, which last until a backslash or an `n` |
| Csv.QuotedSection | cadi/core/src/main/java/org/onap/ccsdk/apps/cadi/util/CSV.java:104-147 | quotes open and close anywhere in a cell, and what is between them belongs to it, delimiters included |
| Csv.CellEnds | cadi/core/src/main/java/org/onap/ccsdk/apps/cadi/util/CSV.java:104-147 | a delimiter outside quotes ends the cell, a doubled quote within them is one of its characters |
| Csv.UnescapedSame | cadi/core/src/main/java/org/onap/ccsdk/apps/cadi/util/CSV.java:120-135 | plain text is read back exactly when every backslash comes right before an `n` |
| Csv.LineIsRead | cadi/core/src/main/java/org/onap/ccsdk/apps/cadi/util/CSV.java:98-152 | the line of a row, with any delimiter that splits, reads as that row only, and exactly when its cells are as they have to be |
| Csv.LinePieces | cadi/core/src/main/java/org/onap/ccsdk/apps/cadi/util/CSV.java:98-152 | whatever a line of cells is read as, no element is a cell that the delimiter tears, and whole cells give no more elements than there are |
| Csv.ReadBackIff | cadi/core/src/main/java/org/onap/ccsdk/apps/cadi/util/CSV.java:98-152 | for every delimiter: a row on one line is read back from it if and only if each quoted cell has no apostrophe, each other cell no delimiter and no backslash but before an `n`, the delimiter splits, and the last cell is not empty, unless the delimiter is a comma and there are others |
| Csv.RoundTripIff | cadi/core/src/main/java/org/onap/ccsdk/apps/cadi/util/CSV.java:94-152 | from the writer to the visitor, for every delimiter, blank ones included: in addition, if and only if the line is not empty, has no blanks at its ends and is no comment |
| Csv.FileRoundTrip | cadi/core/src/main/java/org/onap/ccsdk/apps/cadi/util/CSV.java:94-163 | rows that arrive one by one arrive together |
| CsvFile.LinesOfFile | cadi/core/src/main/java/org/onap/ccsdk/apps/cadi/util/CSV.java:90-93 | what is written line by line is read line by line, whatever ends the lines |
| CsvFile.AllKeep | cadi/core/src/main/java/org/onap/ccsdk/apps/cadi/util/CSV.java:89-163 | no cell delivered has a line break in it |
| CsvFile.FileRoundTripIff | cadi/core/src/main/java/org/onap/ccsdk/apps/cadi/util/CSV.java:89-248 | from rows through the text of the file to the rows delivered: they are the same if and only if each row arrives alone, line breaks in cells and as delimiters included |
| Domains.PiecesJoin | cadi/core/src/main/java/org/onap/ccsdk/apps/cadi/util/Split.java:44-65 | the pieces hold no separator and join to the whole |
| Domains.JoinPieces | cadi/core/src/main/java/org/onap/ccsdk/apps/cadi/util/Split.java:44-65 | pieces without separators, joined, split into themselves |
| Domains.CountPieces | cadi/core/src/main/java/org/onap/ccsdk/apps/cadi/util/Split.java:50-51 | the counting loop counts exactly the pieces |
| Domains.FillPieces | cadi/core/src/main/java/org/onap/ccsdk/apps/cadi/util/Split.java:58-62 | the filling loop fills the array exactly |
| Domains.Split | cadi/core/src/main/java/org/onap/ccsdk/apps/cadi/util/Split.java:36-65 | an array of exactly the pieces, none for null |
| Domains.ReverseDomain | cadi/core/src/main/java/org/onap/ccsdk/apps/cadi/util/FQI.java:30-49 | the pieces, stripped up to their first `@`, joined backwards; empty for null |
| Domains.IdToNS | cadi/core/src/main/java/org/onap/ccsdk/apps/cadi/util/UserChainManip.java:48-76 | the backward scan: segments up to the last `@`, empty ones left out |
| Domains.BackOfDomain | cadi/core/src/main/java/org/onap/ccsdk/apps/cadi/util/UserChainManip.java:56-73 | the scan finds the non-empty pieces of what comes after the last `@`, last first |
| Domains.NamespaceIff | cadi/core/src/main/java/org/onap/ccsdk/apps/cadi/util/UserChainManip.java:48-76 | both ways agree if and only if the identity is empty or has one `@`, after a nonempty name without dots and before a domain without empty parts, or none |

## Left out

- PasswordTrip.PasswordRoundTripIff: AES is known only as a pair of inverse functions, because its algebra is not part of this program; random bytes are any function.
- PasswordTrip.PasswordRoundTripIff: passwords are byte sequences, because charsets are not modelled.
- SymmCodec.Symm.Obtain: codesets that do not have 64 characters or hold a NUL are excluded, because there are none.
- KeyCoverage.OutcomeIff: keys so long that the product of counter and stride overflows before two passes for every slot are left out; for 64 characters these have more than 0x1_0000 bytes.
- PasswordFrame.UnframeFrame: the clock is a natural number of milliseconds, because times before 1970 do not occur.
- SequenceFormat.DefaultMaxIsLargest: powers and numbers are mathematical integers, because a long overflows only beyond 18 decimal or 12 alphanumeric characters.
- SequenceFormat.LongReadsBack: only ASCII digits, because other Unicode digits do not occur in policies.
- NameTable.RunKeepsKey: requests are atomic steps, because transactions and JPA are not modelled; a row's timestamps are left out.
- Allocator.RunSafety: one policy and element type for the family, positive increment and length, name operation the identity. Several element types are the subject of `SharedNumbers.NumbersDistinctIff`; rows of other families are allowed as long as none of the same type bears a name of this one.
- NameGenerator.Session.GenerateNew: the look-up of a request value under a relaxed key, the property operations and the recipe are parameters of a policy; the recipe parser, the policy readers of single properties and `PropertyOperator` are not modelled.
- NameGenerator.Session.GenerateNew: models and elements that are followed in a circle, on which the program recurses without end unless an earlier element's name breaks the circle, and recipes that name SEQUENCE twice are excluded.
- NamingPolicy.RelaxedIsUpper: upper-casing and ignoring case are modelled for ASCII letters, because naming types are ASCII.
- Buffers.Capacitor.Read: bulk reads outside read mode are left out. So are the read of a single byte and `skip`: the first delivers signed bytes, so that a negative one looks like the end, and can run over an empty last chunk, and the second reports a wrong count.
- Buffers.Ring.RingGet: calls are atomic steps, because the ring is synchronized.
- BufferedStream.BufferedServletInputStream.Read: the read of a single byte, `skip`, `available` and `close` are left out.
- MissLimiter.CleanerUnobservable: each step of the cleaner is atomic. The program tests and removes a window in two steps, between which another thread may renew it.
- MissLimiter.AbsUserCache.CleanMisses: the clock is a parameter, one reading for each key.
- ObjectPool.RunBalanced: every object handed out is given back or tossed at most once; finalizers and the races of the unsynchronized counter are left out.
- CsvFile.FileRoundTripIff: rows with a cell that holds both a quote and one of U+0085, U+2028 and U+2029 are left out; the writer leaves such a quote bare.
- Csv.Writer.PrintAll: elements of arrays are not null, because the program fails on these.
- Csv.CSV.Visit: opening, closing and failing to read the file are left out.
- Domains.Split: `split` with a start other than zero and the trimming variants are left out.
- `updateGenerateName` writes names without validating them, so it is not a step of the uniqueness proof.
- Eviction of cached users, whose keys differ between adding and removing.
- `XReader`, `Match` and `NetMask`, whose behaviour differs from their intent.
- Configuration, servlet filters, logging, REST controllers, entities, hashes, access levels and the set of refused addresses: plumbing or one-branch facts.
