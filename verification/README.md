# Verified model of pwdmanlib

pwdmanlib is a small C web server and client with its own utility layer. This project
models its algorithmic core in Dafny and proves what that core does, for all inputs, all
random draws and all interleavings:

- `NumberTheory.dfy`, `CandidateSearch.dfy`, `PrimeSearch.dfy`: the Fermat primality test and the
  prime search.
- `MachineRun.dfy`, `MachineOverflow.dfy`, `MachineSearch.dfy`: the test and the search on 32-bit ints.
- `Counting.dfy`, `FermatLiars.dfy`: how often a round and a whole test err.
- `StringSplit.dfy`, `Reversal.dfy`, `Numerals.dfy`: `strsplit`, `strReverse`, `itoa`.
- `DictTable.dfy`, `Dictionary.dfy`: the fixed-size `Dict`, as a value and as an object.
- `Vector.dfy`: the doubling int vector.
- `Transport.dfy`, `Channel.dfy`: `sendall` and `readall`, alone and at the two ends of a channel.
- `InfoByte.dfy`: the info byte that holds method, protocol and validity.
- `Client.dfy`, `Server.dfy`, `RoundTrip.dfy`, `Pipeline.dfy`: the request printer, the
  request parser, and the proof that the second undoes the first, also across the channel.
- `RequestMeaning.dfy`: what the parser makes of any text, also one the client never sends.
- `Hostname.dfy`: hostname validation.
- `CTypes.dfy`, `Wrappers.dfy`: the C integer types and strings, and `Option`.

Conventions. C strings are sequences of characters without NUL. A pointer that may be NULL
is an `Option`. The outcomes of `rand()` are an arbitrary function from call number to
natural number. The results of TLS writes and reads are parameters. Integers are unbounded
except where a width is named. Where the C code has no defined behaviour the model either
has a `requires` that says so or returns `None`.

## What the proofs show about the code

- A number from 5 on is prime if and only if no random outcome makes `isPrime` reject it. A
  single run may accept a composite: 341 passes when every `rand()` is 0. For an odd number with
  an invertible base that fails, fewer than half of the draws below val - 4 pass a round, and
  fewer than one in 512 of the outcomes of nine such draws are accepted.
- `findPrimeGreaterThan` ends from every start of at least -1; below that the exponent of its
  first round is never 0. It skips no prime exactly when the start is at most 0, or at least 3, or
  is 2 and none of the first nine bases is a multiple of 3. From 1 it always skips the prime 2;
  from 0 and -1 it returns 1.
- No draw makes a product of `isPrime` overflow exactly when the tested number is from 5 to 46343
  or is 1 modulo 2^32. In the last case `val - 1` becomes 0 as an int and every draw passes, also
  for the composite 4294967297. For every other positive number but 4 the draw 46339 overflows.
- No sequence of draws makes `findPrimeGreaterThan` overflow exactly from -1, from 0 and from 3 to
  46336. Whenever the search on ints returns, it returns what the search on unbounded integers
  returns. Below -1 every sequence overflows.
- `strsplit` undoes joining for all token lists if and only if the delimiter has no border. The
  reported length counts an empty last piece although its entry in the array is NULL. For such a
  delimiter the allocated array is large enough exactly when the string is empty or ends with it.
- A `Dict` run agrees with a map throughout exactly when every removal takes the highest used
  slot or finds nothing. Any other removal also hides the entry in the highest used slot until
  the next insertion of a new key, and a key that was hidden, set and removed comes back with its
  old value.
- `readall` returns 0, not an error, when it stops because the message is too long. A finished
  run delivers the whole message for every choice of chunks if and only if the message has 1 to
  `SOCK_BUFF_MAX_READ` + 1 bytes. `sendall` reports -1 for an empty message, and otherwise counts
  exactly what the writes before the first failure returned.
- The stride-2 query loop pairs keys with their own values if and only if no value is empty. The
  array of `parseQueryStr` is large enough exactly when some parameter gives fewer than two tokens.
- A request that is otherwise printable is parsed if and only if its body has no line break.
- Of any request line the first three words count. A target is not parsed exactly when the text
  between its first two `?` is empty or ends with `&`. A last parameter without `=` is stored with
  NULL. The byte marks a request valid exactly when method and protocol are supported.
- The four bytes `itoa` allocates hold a decimal text exactly for values from -99 to 999.

## Model

| member | source | states |
|---|---|---|
| `PrimeSearch.BaseOf` | src/util/arithmetic.h:28 | the drawn base is at least 2, and at most val - 3 when val is at least 5 |
| `PrimeSearch.BaseIs` | src/util/arithmetic.h:28 | the base is 2 more than the draw modulo val - 4, or modulo 2^64 + val - 4 below 4 |
| `PrimeSearch.FermatRound` | src/util/arithmetic.h:29-37 | the square-and-multiply loop ends with base^(val-1) mod val, for every base |
| `PrimeSearch.SquareMultiplyStep` | src/util/arithmetic.h:31-37 | one iteration keeps p * a^exp modulo val |
| `PrimeSearch.IsPrime` | src/util/arithmetic.h:23-45 | returns 1 if and only if all nine rounds end with 1, and then takes nine draws; otherwise the last draw it takes is that of the first failing round |
| `CandidateSearch.StopsAtFailure` | src/util/arithmetic.h:27-41 | the test stops right after its first failing round |
| `CandidateSearch.AllDrawn` | src/util/arithmetic.h:27-44 | an accepting test takes all its draws |
| `NumberTheory.FermatLittle` | src/util/arithmetic.h:39-41 | a^(p-1) mod p is 1 for a prime p that does not divide a: why a prime survives a round |
| `PrimeSearch.PrimeRoundExact` | src/util/arithmetic.h:28-41 | a prime survives a round if and only if it does not divide the drawn base |
| `PrimeSearch.PrimeNeverRejected` | src/util/arithmetic.h:23-45 | no draw makes the test reject a prime from 5 on |
| `PrimeSearch.CompositeHasWitness` | src/util/arithmetic.h:23-45 | every composite from 5 on has a draw that rejects it |
| `PrimeSearch.PrimeIffNeverRejected` | src/util/arithmetic.h:23-45 | from 5 on, prime if and only if no draw rejects |
| `PrimeSearch.PseudoprimeAccepted` | src/util/arithmetic.h:44 | acceptance does not prove primality: 341 passes all nine rounds when every draw is 0 |
| `PrimeSearch.RejectedNotPrime` | src/util/arithmetic.h:39-41 | a return of 0 means composite, from 5 on |
| `PrimeSearch.SearchLoop` | src/util/arithmetic.h:55-58 | the loop ends with the first accepted candidate, each test taking up the draws where the one before it stopped |
| `CandidateSearch.OutcomeUnique` | src/util/arithmetic.h:55-58 | the draws determine the candidate returned and the number of draws taken |
| `CandidateSearch.OutcomeMeans` | src/util/arithmetic.h:55-58 | the last nine draws pass for the candidate returned, and each candidate before it fails with an earlier draw |
| `PrimeSearch.FirstCandidate` | src/util/arithmetic.h:48-53 | the search starts at the next odd number |
| `PrimeSearch.FindPrimeGreaterThan` | src/util/arithmetic.h:47-59 | terminates from every start of at least -1; the result is odd and above val, and the last nine draws pass for it; it is the first accepted candidate, after the rejection of every earlier one; no prime lies between exactly when the stated condition on val and the draws holds |
| `NumberTheory.PrimeAbove` | src/util/arithmetic.h:55-57 | there is a prime above every number, which bounds the search loop |
| `PrimeSearch.ShiftedIs` | src/util/arithmetic.h:36 | k shifts divide the exponent by 2^k, rounding down |
| `PrimeSearch.NegativeCandidateLoops` | src/util/arithmetic.h:30-37 | the first candidate is negative exactly below -1, and then the exponent never reaches 0 |
| `MachineRun.MachineRoundCorrect` | src/util/arithmetic.h:23-41 | for 1 and for 5 to 46343 the 32-bit run never overflows and decides what the mathematical round decides |
| `MachineRun.NegativeOverflows` | src/util/arithmetic.h:31-37 | an exponent that is negative as an int overflows for every base |
| `MachineRun.NoIterationIff` | src/util/arithmetic.h:30-31 | val - 1 is 0 as an int if and only if val is 1 modulo 2^32, and then every draw passes |
| `MachineRun.CompositeAlwaysAccepted` | src/util/arithmetic.h:24-41 | the composite 4294967297 passes every round whatever is drawn |
| `MachineRun.MachineOverflows` | src/util/arithmetic.h:28-35 | for 2, 3 and from 46344 on the draw 46339 overflows, unless val is 1 modulo 2^32; every draw does when val - 1 is negative as an int |
| `MachineRun.FitsIff` | src/util/arithmetic.h:23-41 | no draw overflows if and only if val is from 5 to 46343 or is 1 modulo 2^32 |
| `MachineOverflow.OverflowFrom` | src/util/arithmetic.h:31-37 | the loop overflows if and only if, in some iteration i it makes, the square of a^(2^i) mod val exceeds INT_MAX, or the i-th bit is set and the product with the power to the lower bits does |
| `MachineOverflow.ValueIsPower` | src/util/arithmetic.h:31-37 | a loop on ints that does not overflow ends with the power, for every modulus |
| `MachineOverflow.MachineTestIs` | src/util/arithmetic.h:28-37 | both together for every number above 1 but 4 and every draw, with the exponent converted to int |
| `MachineSearch.MachineStopsAt` | src/util/arithmetic.h:27-44 | the test on ints stops right after the first round that does not end with 1 |
| `MachineSearch.DecidedCorrect` | src/util/arithmetic.h:23-45 | for every int a test without overflow decides, and takes the draws, as the mathematical one |
| `MachineSearch.FoundIsOutcome` | src/util/arithmetic.h:55-58 | whatever the search on ints finds is the outcome of the search on unbounded integers |
| `MachineSearch.FoundWithoutOverflow` | src/util/arithmetic.h:55-58 | it finds that outcome whenever no round overflows and the candidate fits an int |
| `MachineSearch.MachineIsPrimeCorrect` | src/util/arithmetic.h:23-45 | for 1 and for 5 to 46343 the whole test on ints decides, and takes the draws, as the mathematical one |
| `MachineSearch.MachineFindCorrect` | src/util/arithmetic.h:47-59 | from -1, 0 and 3 to 46336 the search on ints has the outcome of the search on unbounded integers |
| `MachineSearch.LoopBreaks` | src/util/arithmetic.h:55-57 | from a negative candidate, from 3 and from 46339 on some draws overflow: 46339, 46341 and 46343 can be rejected and 46345 overflows |
| `MachineSearch.NegativeStartBreaks` | src/util/arithmetic.h:47-57 | below -1 all draws overflow |
| `MachineSearch.SearchFitsIff` | src/util/arithmetic.h:47-59 | for every int, no draws overflow if and only if it is -1, 0 or from 3 to 46336 |
| `FermatLiars.HalfAreLiars` | src/util/arithmetic.h:28-41 | with an invertible base that fails, at most half of all bases pass |
| `FermatLiars.FewerThanHalfPass` | src/util/arithmetic.h:28-41 | for an odd val from 5 with such a base, fewer than half of the draws below val - 4 pass a round |
| `FermatLiars.AcceptingIff` | src/util/arithmetic.h:27-44 | the accepting outcomes of nine draws are those with which isPrime returns 1 |
| `FermatLiars.FewOutcomesAccept` | src/util/arithmetic.h:27-44 | for such a val and any k from 1 on, 2^k times the accepting outcomes of k draws is below (val - 4)^k, the number of all outcomes |
| `StringSplit.CountPieces` | src/util/stringops.h:63-67 | the counting pass counts the pieces between delimiters |
| `StringSplit.CutPieces` | src/util/stringops.h:73-81 | the cutting pass puts every piece but the last in its slot, in bounds of the counted array |
| `StringSplit.StrSplit` | src/util/stringops.h:54-94 | the array is the pieces without an empty last one, then NULL; len is the number of pieces |
| `StringSplit.JoinAfterSplit` | src/util/stringops.h:63-88 | the first len entries, NULL read as empty, rejoin to the original string |
| `StringSplit.PiecesAreFree` | src/util/stringops.h:73-81 | no piece contains the delimiter |
| `StringSplit.PiecesAreLeftmost` | src/util/stringops.h:73-81 | each piece but the last ends at the first delimiter in what is left, for every delimiter |
| `StringSplit.SplitAfterJoin` | src/util/stringops.h:54-94 | splitting a joined list gives the list back, for delimiters without a border |
| `StringSplit.SplitUndoesJoinIff` | src/util/stringops.h:54-94 | it does so for all lists if and only if the delimiter has no border |
| `StringSplit.AllocatedSlotsSuffice` | src/util/stringops.h:71-86 | the allocated slots hold the tokens and the NULL if and only if the last piece is empty; for a delimiter without a border, if and only if the string is empty or ends with it |
| `Reversal.XorSwap` | src/util/stringops.h:27 | XOR_SWAP at two different indices exchanges the bytes and touches no other |
| `Reversal.StrReverse` | src/util/stringops.h:169-178 | the in-place loop computes the reverse |
| `Reversal.SwapEnds` | src/util/stringops.h:163-165 | the temp-variable loop computes the same reverse |
| `Reversal.ReversedTwice` | src/util/stringops.h:169-178 | reversing twice is the identity |
| `Numerals.WriteDigits` | src/util/stringops.h:155-158 | the do-while loop writes the digits, least significant first |
| `Numerals.Itoa` | src/util/stringops.h:141-167 | the text is the sign and the digits, most significant first |
| `Numerals.ReadAfterItoa` | src/util/stringops.h:141-167 | reading the text back gives the int in radix 10 and the unsigned value in every other radix |
| `Numerals.ItoaInjective` | src/util/stringops.h:141-167 | different ints have different texts, for each radix |
| `Numerals.SignAndDigits` | src/util/stringops.h:149-160 | a minus sign exactly for negative values in radix 10, and then only digits of the radix |
| `Numerals.NoLeadingZero` | src/util/stringops.h:155-158 | no superfluous leading zero |
| `Numerals.DigitCount` | src/util/stringops.h:155-158 | the digits fit k characters if and only if the value is below radix^k |
| `Numerals.DecimalFitsFourBytes` | src/util/stringops.h:143 | the allocated four bytes are enough exactly from -99 to 999 |
| `Dictionary.Dict.constructor` | src/util/oop.h:112-133 | a new dictionary has all slots empty and counter 0 |
| `Dictionary.Dict.FindKey` | src/util/oop.h:197-204 | the first position below the counter that holds the key, or -1 |
| `Dictionary.Dict.SetTuple` | src/util/oop.h:135-153 | the new contents and status are those of `Set`; the first-free search stops in bounds |
| `Dictionary.Dict.GetTuple` | src/util/oop.h:160-166 | the value in the first matching slot below the counter |
| `Dictionary.Dict.GetIndex` | src/util/oop.h:168-173 | the value at an index below the counter whose slot is used |
| `Dictionary.Dict.RemoveTuple` | src/util/oop.h:176-184 | the new contents and status are those of `Remove` |
| `DictTable.CounterCounts` | src/util/oop.h:135-153 | in every run of set and remove the counter is the number of used slots, and a free slot exists exactly when the counter is below the size |
| `DictTable.HiddenAreHoles` | src/util/oop.h:135-204 | in every run the entries at or above the counter are as many as the holes below it |
| `DictTable.SetInAnyTable` | src/util/oop.h:135-153 | set fails with -1 exactly for a key not seen at full count; otherwise the key is seen with its value, and the only slot changed is the first that showed the key or the first free one |
| `DictTable.SetNullKey` | src/util/oop.h:135-153 | a NULL key stores nothing but is counted while there is room |
| `DictTable.RemoveInAnyTable` | src/util/oop.h:176-184 | remove empties the first slot that shows the key and lowers the counter, or returns -1 and changes nothing |
| `DictTable.GetIsView` | src/util/oop.h:160-166 | lookups answer from one map, for every table; a NULL key is never found |
| `DictTable.SetAgrees` | src/util/oop.h:135-153 | on a compact table set updates the map and fails only for a new key at full size |
| `DictTable.RemoveAgreesIff` | src/util/oop.h:176-184 | on a compact table remove agrees with the map, and leaves the table compact, exactly when it takes the highest used slot or finds nothing |
| `DictTable.MidRemoveHidesLast` | src/util/oop.h:197-204 | any other removal hides exactly one more entry, the one in the highest used slot, which stays stored |
| `DictTable.InsertRestores` | src/util/oop.h:141-150 | inserting a key stored nowhere restores compactness and agreement with the map |
| `DictTable.RemovedKeyReturns` | src/util/oop.h:176-204 | the hidden key, set and removed again, returns with its old value after the next insertion |
| `DictTable.RunAgrees` | src/util/oop.h:112-204 | every run of set, and of removals at the highest used slot, shows the bounded finite map |
| `DictTable.RunAgreesIff` | src/util/oop.h:112-204 | a run agrees with the bounded map after each of its operations if and only if every removal takes the highest used slot or finds nothing |
| `IntVector.Vector.constructor` | src/util/vector.c:29-36 | empty, with the given room |
| `IntVector.Vector.Resize` | src/util/vector.c:64-70 | doubles the room exactly when full and keeps the elements; there is room afterwards if and only if there was some before |
| `IntVector.Vector.Append` | src/util/vector.c:38-44 | adds the value at the end |
| `IntVector.Vector.Get` | src/util/vector.c:46-52 | the element, or failure out of bounds on either side |
| `IntVector.Vector.Set` | src/util/vector.c:54-62 | zero-fills up to the index, then assigns |
| `IntVector.NegativeIndexFills` | src/util/vector.c:54-58 | a negative index keeps the zero-fill going until the size is above 2^64 + index, more ints than memory can hold |
| `IntVector.RunRefinesSequence` | src/util/vector.c:29-70 | every run builds its sequence; the room is the initial one times a power of two and at most twice the size or the initial room; the elements moved are the room gained and at most twice the size |
| `Transport.SendAll` | src/crypto/ssl_funcs.h:398-412 | for every trace of write results the number sent is the sum of the results before the first negative one, up to len; the status is 0 if that sum reaches len, the failing result otherwise, and -1 when len is not positive; the bytes taken are the first ones of the buffer in order |
| `Transport.SendRunEnds` | src/crypto/ssl_funcs.h:403-411 | the same of the specification that the channel uses |
| `Transport.SendRun` | src/crypto/ssl_funcs.h:403-408 | total + bytesleft stays len and the bytes taken are a prefix, after any number of writes |
| `Transport.ReadRun` | src/crypto/ssl_funcs.h:419-427 | the loop ends for every stream, with at most SOCK_BUFF_MAX_READ + SOCK_BUFF_DEF_READ bytes |
| `Transport.ReadAll` | src/crypto/ssl_funcs.h:415-430 | the buffer starts with the bytes received and is unchanged after them; all writes are in bounds |
| `Transport.ReadEnds` | src/crypto/ssl_funcs.h:419-429 | the loop stops at the first failure, empty chunk or excess over the limit; the buffer is the concatenation of the chunks and the status is the failure's code or 0 |
| `Channel.Apply` | src/crypto/ssl_funcs.h:398-430 | every step keeps the wire and the two loops consistent and makes progress |
| `Channel.NoDeadlock` | src/crypto/ssl_funcs.h:398-430 | until both loops return some step can happen |
| `Channel.Delivery` | src/crypto/ssl_funcs.h:398-430 | every run is bounded, can go on until both loops return, and then both return 0 and the message has arrived |
| `Channel.DeliveryIff` | src/crypto/ssl_funcs.h:423-426 | all finished runs deliver if and only if the message has 1 to SOCK_BUFF_MAX_READ + 1 bytes |
| `Channel.EveryCutDelivers` | src/crypto/ssl_funcs.h:398-430 | every cut of a message into writes and every cut of it into reads is a run that delivers it |
| `Channel.TruncatingRun` | src/crypto/ssl_funcs.h:423-429 | a longer message has a run in which both loops return 0 and bytes are missing |
| `Channel.EmptyMessageRun` | src/crypto/ssl_funcs.h:399-411 | the empty message has a finished run in which sendall returns -1 and readall 0 |
| `Channel.SenderIsSendAll` | src/crypto/ssl_funcs.h:398-412 | the sender in a run ends as the sendall loop does on the run's write results |
| `Channel.ReaderIsReadAll` | src/crypto/ssl_funcs.h:415-430 | the reader in a finished run ends as the readall loop does on the run's chunks |
| `InfoByte.EncodedByteDecodes` | src/server/fawkes_proto.h:46-221 | from any byte the three encoders give a byte that decodes to the table positions of the names, -1 for unsupported ones; the validity is 1 if both are supported and -1 otherwise |
| `InfoByte.EncodedByteIs` | src/server/fawkes_proto.h:46-139 | the byte is 16 times the method position, 4 times the protocol position and 1 if both are supported, with 0 for unsupported names |
| `InfoByte.DecodedFields` | src/server/fawkes_proto.h:142-221 | what each decoder returns for every byte |
| `InfoByte.EncodersKeepOtherFields` | src/server/fawkes_proto.h:65-137 | each encoder leaves the bits of the other fields alone |
| `InfoByte.ProtoAndMethodCommute` | src/server/fawkes_proto.h:46-110 | the first two encoders commute |
| `InfoByte.EncodeForgetsStart` | src/server/fawkes_proto.h:46-139 | the three encoders together overwrite every bit |
| `InfoByte.ReqmtsIff` | src/server/fawkes_proto.h:114-139 | the two low bits become 1 if both fields decode and 0 otherwise, which decode to 1 and -1 |
| `Client.BuildRequest` | src/client/client_v2.c:104-144 | the text is the request line, the Host line, the header lines, the length line, a blank line and the body; a GET query with a space gives none |
| `Client.AppendHeaders` | src/client/client_v2.c:125-128 | the loop appends each header line and CRLF |
| `Client.GetText` | src/client/client_v2.c:104-129 | the text of a GET in terms of the arguments as given, with the defaults for empty ones; none for a query with a space |
| `Client.BodyMessageText` | src/client/client_v2.c:130-144 | the text of every other request in terms of the arguments as given |
| `Client.MessageIsJoin` | src/client/client_v2.c:104-144 | the text is its lines joined by CRLF |
| `Server.ParseQueryStr` | src/server/server.h:256-301 | the array of the path, the tokens of the parameters and the NULL, and the number of tokens; no result where a NULL pointer is read |
| `Server.QueryArraySuffices` | src/server/server.h:264-289 | the allocated slots hold the tokens and the NULL if and only if some parameter gives fewer than two tokens |
| `Server.FillQuery` | src/server/server.h:205-209 | the stride-2 loop makes the assignments of odd tokens to their successors |
| `Server.FillHeaders` | src/server/server.h:218-229 | the loop stores name and value of every header line up to the last two pieces |
| `Server.FindBody` | src/server/server.h:231-236 | the body is the token after the first empty one |
| `Server.ParseRequest` | src/server/server.h:167-254 | the record and its two dictionaries are those of `Parse` |
| `RoundTrip.FieldParses` | src/server/server.h:303-325 | a line name, ": ", value parses into name and value when the name is free of ": " |
| `RoundTrip.QueryParses` | src/server/server.h:256-301 | the tokens of a query of pairs are the path and then keys and values, 2n + 1 of them when no value is empty |
| `RoundTrip.StridePairsIff` | src/server/server.h:205-209 | the loop assigns every key its own value if and only if no value is empty |
| `RoundTrip.TargetParses` | src/server/server.h:197-216 | the query dictionary shows the bounded map of the pairs and the path is recovered |
| `RoundTrip.BoundedIsLastWins` | src/server/server.h:192-194 | within the size limit the bounded map is the last-wins map |
| `RoundTrip.MessageSplits` | src/server/server.h:175 | the message splits back into exactly its lines and the lines of its body |
| `RoundTrip.ParseUndoesPrint` | src/server/server.h:167-254 | for every printable request the parser recovers method and protocol codes, path, query map, header map with Host and Content-Length, and body |
| `RoundTrip.ParsesIffBodyUnbroken` | src/server/server.h:218-236 | a request whose parts before the body are printable is parsed, and then recovered, if and only if its body has no line break |
| `CTypes.BufferedIsText` | src/server/server.h:146 | a NUL-free text shorter than a zeroed buffer is the C string in it |
| `RoundTrip.ArgumentsArrive` | src/client/client_v2.c:56-144 | from the arguments as given: a line break in a body stops the parser, and otherwise method, path and host come back with their defaults for empty ones, the data as query or body, and the headers |
| `RequestMeaning.HeaderIff` | src/server/server.h:303-325 | a header line gives name and value exactly when it is name, ": ", value with a name free of ": "; none exactly without ": " |
| `RequestMeaning.ParamMeans` | src/server/server.h:272-287 | a parameter with '=' gives key and non-empty value; one without gives itself, unless empty |
| `RequestMeaning.StrideMeans` | src/server/server.h:205-209 | the loop adds a pair for two more tokens and a key with NULL for one more |
| `RequestMeaning.TargetMeans` | src/server/server.h:197-216 | path and query end at the first and second '?'; no result exactly for an empty query or one that ends with '&' |
| `RequestMeaning.PlainParamIsNull` | src/server/server.h:272-287 | a last parameter without '=' is stored with NULL, after the pairs before it |
| `RequestMeaning.HeadMeans` | src/server/server.h:182-216 | for any line of at least three words: the byte of the first and third, and the target of the second |
| `RequestMeaning.HeadTooShort` | src/server/server.h:182-197 | no result with fewer than three words |
| `RequestMeaning.BodyIs` | src/server/server.h:231-236 | the body is what follows the first empty token, NULL after the last token, and unset without an empty one |
| `RequestMeaning.RequestMeans` | src/server/server.h:167-254 | any text with a request line of three words and header lines with names is parsed if and only if its target is, into the decoded method, protocol and validity, path, query, header map and body |
| `RequestMeaning.RequestFails` | src/server/server.h:218-223 | a text of one line, or with a header line without ": ", is not parsed |
| `Pipeline.RequestArrives` | src/server/server.h:144-161 | the same after any run of the channel; a NUL-free message shorter than the zeroed 87380-byte buffer is also the C string that is parsed |
| `Pipeline.RecoveredWithinLimits` | src/server/server.h:189-195 | with at most 50 header names and 20 query keys the recovered maps are the last-wins maps |
| `CTypes.StrLen` | src/validation/openssl_validation.h:109 | the length test fails exactly for strings with an embedded NUL |
| `Hostname.MatchesSubjectAlternativeName` | src/validation/openssl_validation.h:131-167 | the first DNS name that is malformed or matches decides; NoSANPresent exactly without a list |
| `Hostname.SanMatchIff` | src/validation/openssl_validation.h:145-164 | a match is found if and only if some DNS name equals the host ignoring case and it and all DNS names before it are NUL-free |
| `Hostname.SanFailIff` | src/validation/openssl_validation.h:145-164 | malformed if and only if a DNS name with a NUL comes before any match; not found if and only if every DNS name is NUL-free and differs |
| `Hostname.SameIgnoringCaseIff` | src/validation/openssl_validation.h:114 | names agree if and only if at every place they are equal or have the two cases of one ASCII letter |
| `Hostname.ValidateHostname` | src/validation/openssl_validation.h:181-195 | when each verdict is returned; the common name counts only without a SAN list; never NoSANPresent (section 6.4.4 of RFC 6125) |

## Left out

- Sockets, TLS set-up, certificate loading, signals, routing, responses and the database wrapper: foreign calls and plumbing.
- Allocation, allocation sizes and frees: arrays have the capacity their contracts state, also where the C code allocates less (the token arrays, the path and body copies, the text of `itoa`).
- The client's estimate of the message size: the message is its text up to the terminator.
- PrimeSearch.IsPrime: leaves out val 0 and 4, where the C code divides by zero; a drawn base above INT_MAX is not truncated, its square overflows either way.
- PrimeSearch.FindPrimeGreaterThan: leaves out starts below -1, where the exponent never reaches 0 (`NegativeCandidateLoops`) and the C code overflows (`MachineSearch.NegativeStartBreaks`).
- IntVector.Vector.Append: needs room to double; a vector initialised with capacity 0 never gains any, and the C code then writes past its memory.
- IntVector.Vector.Set: leaves out negative indices, for which the zero-fill does not stop (`NegativeIndexFills`).
- Pipeline.RequestArrives: a message of 87380 bytes or more leaves the receive buffer; the model then speaks of the bytes received only.
- Transport.SendAll: a write that returns 0 is allowed in a trace, but the channel model takes only writes of at least one byte.
- Server.ParseRequest: reports no result where the C code reads a NULL or uninitialised pointer, or never leaves the header loop; which of these happens is not modelled.
- Debug output, `joinPath`, `readFile`, `destroyDict`, the increment vector (the same code as the int vector) and the stubs of the hash map and the stacks: they carry no invariant of their own.
