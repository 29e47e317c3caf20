# Text-analysis TCP servers, modelled in Dafny

The repository holds two small TCP servers. Each reads one text message per
connection, analyses it, replies with one line and closes the connection.

- `TCPServer` (`tcp_server.py`) strips the message and checks that it is
  made of letters only. It replies with how many times the last character
  occurs in the message, ignoring case.
- `TCPServerEnhanced` (`tcp_server_V2.py`) strips the message and checks
  that it is made of letters and whitespace. It finds the last vowel and
  counts how often that vowel occurs, ignoring case. It also tests whether
  the count is prime and appends a record to a results file. The file gets
  a banner the first time it is created.
- Every failure is a one-line `ERROR: <reason>` reply. The socket is
  closed exactly once on every path.

The model has one module per concern:

- `Chars`: Python's `isalpha`, `isspace`, `lower` and `strip` on the
  Latin-1 range.
- `Counting`: the case-insensitive occurrence count both servers use. It is
  specified by the set of matching positions.
- `Decimal`: the decimal reply and its read-back.
- `Sockets`: a client socket that records, in order, every send and every
  close made on it.
- `ResultLog`: the results file as a sequence of banner and record entries.
- `LastCharServer`: the first server.
- `LastVowelServer`: the second server. Its `EnhancedServer` class holds the
  results file as a field, and its methods update that field in place.
- `Variants`: the two servers compared on the same input.

Each handler is split into two parts:

- A pure decision, `Decide`, that follows the branches of `handle_client`
  in order.
- An imperative method, `HandleClient`, whose contract ties the socket's
  events and the results file to that decision.

What a connection delivers is `Received(text)` (the decoded text) or
`ReceiveFailed` (receiving or decoding raised). The time stamp of a record
is a parameter.

## Where the code and its comments differ

The model follows the code in each of these cases.

- `"reconocer"`: the comment beside this case in `test.py` (line 42) expects
  a count of 3. The word holds two `r`s, so the code answers 2; see
  `ReconocerCountsTwo`.
- `"hello world"` in the vowel server: the last vowel is `o`, which occurs
  twice. `is_prime(2)` returns `True`, so the record says `SI`; see
  `HelloWorldCounted`.
- The vowel server's check for a whitespace-only message can never fire.
  The message was already stripped and found non-empty; see
  `OnlySpacesUnreachable`.
- The vowel server's `validate_text` accepts the empty text, because `all`
  over nothing is true. The handler never reaches it with empty text.

## Model

| member | source | states |
|---|---|---|
| Chars.IsAlpha | tcp_server.py:44 | Python's `isalpha` on one character, over the Latin-1 range; its use is stated by `LastCharServer.ValidateText` |
| Chars.IsSpace | tcp_server.py:58 | Python's `isspace` on one character, the set `strip` removes; its use is stated by `Chars.Strip` and `Chars.TrimLeftSuffix` |
| Chars.IsUpper | tcp_server.py:30 | the characters `lower` changes; `Chars.Lower` states that none survives lowering |
| Chars.Lower | tcp_server.py:30-31 | a lowered character is never upper case, is a letter exactly when the original is, and every character that is not upper case is left unchanged |
| Chars.LowerString | tcp_server.py:31 | lowering a text keeps its length and lowers each character in place |
| Chars.LowerIdempotent | tcp_server_V2.py:68 | lowering twice is lowering once |
| Chars.TrimLeft | tcp_server.py:58 | `lstrip` never lengthens the text; what it keeps and drops is stated by `Chars.TrimLeftSuffix` |
| Chars.TrimRight | tcp_server.py:58 | `rstrip` never lengthens the text; what it keeps and drops is stated by `Chars.TrimRightPrefix` |
| Chars.TrimLeftSuffix | tcp_server.py:58 | `lstrip` keeps a suffix, everything it drops is whitespace, and what it keeps does not start with whitespace |
| Chars.TrimRightPrefix | tcp_server.py:58 | `rstrip` keeps a prefix, everything it drops is whitespace, and what it keeps does not end with whitespace |
| Chars.Strip | tcp_server.py:58 | `strip` is empty exactly when the text is all whitespace; otherwise it starts and ends with a non-whitespace character |
| Chars.StripSlice | tcp_server.py:58 | `strip` returns a contiguous slice of the text, and every character before or after that slice is whitespace |
| Chars.StripOfTrimmed | tcp_server.py:58 | text with no whitespace at either end is returned unchanged by `strip` |
| Chars.StripIdempotent | tcp_server_V2.py:136 | stripping an already stripped text changes nothing |
| Counting.Occurrences | tcp_server.py:31 | the generator count never exceeds the text length |
| Counting.OccurrencesArePositions | tcp_server.py:31 | the count equals the number of positions whose lowered character is the target |
| Counting.OccurrencesPositive | tcp_server.py:30-31 | a target that occurs at some position is counted at least once |
| Counting.OccurrencesIgnoreCase | tcp_server_V2.py:68 | texts that agree once lowered have the same count |
| Decimal.NatToDecimal | tcp_server.py:78 | the reply number is a non-empty string of digits with no leading zero, and it is "0" exactly for zero |
| Decimal.DecimalRoundTrip | tcp_server.py:78 | reading the decimal reply back gives the count |
| Decimal.DecimalInjective | tcp_server.py:78 | different counts give different replies |
| Sockets.NoNewlineConcat | tcp_server.py:69 | joining two texts without a newline gives a text without a newline |
| Sockets.LineOf | tcp_server.py:78 | a text without a newline, followed by `\n`, is exactly one line |
| Sockets.ErrorLineIsLine | tcp_server.py:62 | an `ERROR: <reason>` reply with a newline-free reason is one line starting with `ERROR: ` |
| Sockets.ClientSocket.constructor | tcp_server.py:46 | a fresh connection has no events and is open |
| Sockets.ClientSocket.SendAll | tcp_server.py:62 | `sendall` needs an open socket, appends exactly one send of its payload to the events and leaves the socket open |
| Sockets.ClientSocket.Close | tcp_server.py:90 | `close` appends one close to the events and the socket is no longer open |
| LastCharServer.CountLastCharacter | tcp_server.py:17-32 | empty text counts 0; otherwise the count is between 1 and the length and equals the number of positions holding the lowered last character |
| LastCharServer.ValidateText | tcp_server.py:34-44 | `isalpha` holds exactly when the text is non-empty and every character is a letter |
| LastCharServer.Decide | tcp_server.py:56-79 | the outcome of the branches of `handle_client`, taken in order; what each outcome means is stated by `LastCharServer.DecideBranches` |
| LastCharServer.Reply | tcp_server.py:60-86 | the line sent for each outcome; its shape and read-back are stated by `LastCharServer.ReplyReadsBack` |
| LastCharServer.ReasonsHaveNoNewline | tcp_server.py:62-86 | none of the three error reasons contains a newline |
| LastCharServer.DecideBranches | tcp_server.py:56-81 | no data exactly when the received text is all whitespace; rejected exactly when the stripped text holds a non-letter; counted exactly when it passes `isalpha`, with a count between 1 and its length equal to the occurrences of its lowered last character |
| LastCharServer.ReplyReadsBack | tcp_server.py:60-86 | every reply is one line ending in a newline; a success reads back as the count; every other reply starts with `ERROR: ` |
| LastCharServer.CountIgnoresCase | tcp_server.py:30-31 | changing the case of any character does not change the count |
| LastCharServer.CountOfLowered | tcp_server.py:31 | counting on the lowered text gives the same answer |
| LastCharServer.LettersOnlyCounted | tcp_server.py:56-79 | a letters-only text is counted as it stands, with the number of positions of its lowered last character |
| LastCharServer.HolaCountsOne | test.py:40 | "hola" is answered 1 |
| LastCharServer.BananaCountsThree | test.py:41 | "banana" is answered 3 |
| LastCharServer.ReconocerCountsTwo | test.py:42 | "reconocer" is answered 2 |
| LastCharServer.AbcdefgCountsOne | test.py:43 | "abcdefg" is answered 1 |
| LastCharServer.AaaCountsThree | test.py:44 | "aaa" is answered 3 |
| LastCharServer.NonLetterRejected | tcp_server.py:67-72 | a stripped text holding a non-letter is rejected with the alphabetic-only error |
| LastCharServer.DigitsRejected | test.py:45 | "test123" is rejected |
| LastCharServer.InnerSpaceRejected | test.py:46 | "hello world" is rejected |
| LastCharServer.EmptyNoData | tcp_server.py:60-63 | an empty payload gets the no-data error |
| LastCharServer.WhitespaceNoData | tcp_server.py:58-63 | a payload of only whitespace gets the no-data error |
| LastCharServer.Serve | tcp_server.py:56-81 | on an open socket, the body of the `try` adds exactly one send, of the reply of the decision on the received text, and leaves the socket open |
| LastCharServer.HandleClient | tcp_server.py:56-91 | on an open socket, exactly two events are added, in order: the send of the decision's reply (the internal error when receiving fails), then one close |
| LastVowelServer.IsVowel | tcp_server_V2.py:23 | membership in the server's vowel set `aeiouAEIOU`; `LastVowelServer.LastVowel` states that a found vowel lowers into it |
| LastVowelServer.LastVowel | tcp_server_V2.py:39-53 | there is no last vowel exactly when the text holds no vowel; a found vowel is a lower-case vowel |
| LastVowelServer.LastVowelAt | tcp_server_V2.py:49-53 | a vowel with no vowel after it is the lowered answer |
| LastVowelServer.LastVowelIndex | tcp_server_V2.py:49-53 | a found vowel is the lowered character at a position with no vowel after it |
| LastVowelServer.FindLastVowel | tcp_server_V2.py:39-53 | the right-to-left scan returns the last vowel, lowered, or nothing |
| LastVowelServer.CountVowelOccurrences | tcp_server_V2.py:55-68 | no vowel or an empty one counts 0; a one-character vowel counts the positions of its lowered form; a longer string counts 0 |
| LastVowelServer.LastVowelCounted | tcp_server_V2.py:160-169 | the last vowel of a text occurs in it at least once |
| LastVowelServer.SmallPrimes | tcp_server_V2.py:80-83 | 0 and 1 are not prime; 2 and 3 are |
| LastVowelServer.EvenNotPrime | tcp_server_V2.py:84-85 | an even number above 2 is not prime |
| LastVowelServer.DivisorNotPrime | tcp_server_V2.py:88-90 | a divisor the loop finds, at most the square root, makes the number composite |
| LastVowelServer.NoDivisorPastRoot | tcp_server_V2.py:87-91 | an odd number with no divisor up to its square root has no divisor at all |
| LastVowelServer.IsPrime | tcp_server_V2.py:70-91 | the trial division answers exactly whether `n` is at least 2 with no divisor between 2 and `n - 1` |
| LastVowelServer.ValidateText | tcp_server_V2.py:93-104 | the check holds exactly when every character is a letter or whitespace |
| LastVowelServer.Decide | tcp_server_V2.py:136-172 | the outcome of the branches of `handle_client`, taken in order; what each outcome means is stated by `LastVowelServer.ErrorOrder` and `LastVowelServer.SuccessReport` |
| LastVowelServer.Reply | tcp_server_V2.py:138-192 | the line sent for each outcome; its shape and read-back are stated by `LastVowelServer.ReplyReadsBack` |
| LastVowelServer.ReasonsHaveNoNewline | tcp_server_V2.py:140-192 | none of the five error reasons contains a newline |
| LastVowelServer.LongReasonsHaveNoNewline | tcp_server_V2.py:147-154 | the two longest error reasons contain no newline |
| LastVowelServer.ReplyReadsBack | tcp_server_V2.py:138-194 | every reply is one line ending in a newline; a success reads back as the count; every other reply starts with `ERROR: ` |
| LastVowelServer.PrimeLabel | tcp_server_V2.py:172 | the `SI`/`NO` label of a primality answer; `LastVowelServer.PrimeLabelReadsBack` states that it is faithful |
| LastVowelServer.LogRecord | tcp_server_V2.py:168-178 | the record a decision saves; `LastVowelServer.RecordIffSuccess` states that only a success has one and what it holds |
| LastVowelServer.LogAfter | tcp_server_V2.py:168-178 | the results file after a decision; `LastVowelServer.RepeatedMessage` and `LastVowelServer.EnhancedServer.HandleClient` state how it grows |
| LastVowelServer.PrimeLabelReadsBack | tcp_server_V2.py:172 | the label is "SI" exactly for a prime count |
| LastVowelServer.OnlySpacesUnreachable | tcp_server_V2.py:136-157 | the whitespace-only error is never the outcome |
| LastVowelServer.ErrorOrder | tcp_server_V2.py:134-166 | no data exactly when the text is all whitespace; invalid exactly when the stripped text holds a character that is neither a letter nor whitespace; no vowel exactly when it is valid and holds no vowel; success exactly when it is valid and holds a vowel |
| LastVowelServer.SuccessReport | tcp_server_V2.py:159-182 | a success reports the stripped message, its last vowel in lower case, a count between 1 and the length equal to that vowel's occurrences, and whether the count is prime |
| LastVowelServer.RecordIffSuccess | tcp_server_V2.py:168-178 | only a success yields a record, and that record carries the time, message, vowel, count and "SI" exactly when the count was found prime |
| LastVowelServer.RepeatedMessage | tcp_server_V2.py:169-178 | the same successful message sent twice adds exactly two records after the earlier ones, equal except for their time stamps |
| LastVowelServer.EnhancedServer.constructor | tcp_server_V2.py:14-26 | a new server starts from the file as found and initialises it |
| LastVowelServer.EnhancedServer.InitializeLogFile | tcp_server_V2.py:28-37 | the file exists afterwards; an existing file is untouched and a missing one holds just the banner |
| LastVowelServer.EnhancedServer.SaveToLog | tcp_server_V2.py:106-128 | one record is appended after everything already in the file, and the records grow by exactly that one |
| LastVowelServer.EnhancedServer.Serve | tcp_server_V2.py:134-187 | on an open socket, the body of the `try` adds exactly one send, of the reply of the decision, leaves the socket open, and changes the file only by the record of a success |
| LastVowelServer.EnhancedServer.HandleClient | tcp_server_V2.py:130-197 | on an open socket, exactly two events are added, in order: the send of the decision's reply, then one close; the records grow by the success record or not at all |
| ResultLog.Initialized | tcp_server_V2.py:28-37 | afterwards the file exists; an existing file is kept, a missing one holds only the banner |
| ResultLog.Appended | tcp_server_V2.py:117-125 | an append in append mode keeps every earlier entry, adds exactly one record at the end, and creates a missing file without a banner |
| ResultLog.InitializeIdempotent | tcp_server_V2.py:28-31 | initialising twice is initialising once |
| ResultLog.InitializeHeaders | tcp_server_V2.py:28-37 | initialising adds a banner only to a missing file and never touches records |
| ResultLog.AppendAddsOneRecord | tcp_server_V2.py:117-125 | an append adds no banner and exactly its record after the earlier ones |
| ResultLog.AppendAll | tcp_server_V2.py:117-128 | saves serialised by the lock add one entry each; that the earlier entries are kept is stated by `ResultLog.AppendAllKeepsEntries` |
| ResultLog.AppendAllKeepsEntries | tcp_server_V2.py:117-128 | serialised saves keep every earlier entry of the file, in place, ahead of the new ones |
| ResultLog.AppendAllHeaders | tcp_server_V2.py:117-128 | serialised saves add no banner |
| ResultLog.AppendAllRecords | tcp_server_V2.py:117-128 | serialised saves add exactly their records, in the order they ran |
| ResultLog.FreshLogHoldsOneHeader | tcp_server_V2.py:28-34 | a file created by the server and then appended to holds one banner, first, followed by the saved records in order |
| Variants.HelloWorldDisagreement | test.py:46 | "hello world" is rejected by the first server and counted by the second |
| Variants.HelloWorldCounted | tcp_server_V2.py:134-182 | the second server answers "hello world" with the vowel o, a count of 2, and prime |
| Variants.VowelAnalysis | tcp_server_V2.py:145-169 | a stripped, valid text whose last vowel sits at a given position is counted with that vowel and its number of positions |

## Left out

- `start` in both servers is not part of this model. That covers the
  listening socket, the accept loop, the thread per connection and the
  thread pool; these are I/O and concurrency.
- The lock around `save_to_log` is not modelled as a lock. The only thing
  kept is its effect: saves run one after another (`AppendAll`).
- The receive buffer size (1024 or 4096 bytes) and the truncation of longer
  messages are not modelled. UTF-8 decoding is not modelled either. A
  decode error is the `ReceiveFailed` input.
- Replies are modelled as text. The code encodes them as UTF-8 bytes before
  `sendall` (tcp_server.py:71, 79; tcp_server_V2.py:149, 182); the model
  does not capture the byte encoding of the accented reasons.
- LastVowelServer.EnhancedServer.constructor: always succeeds. In the code,
  an exception raised by `_initialize_log_file` (a file that cannot be
  created) escapes `__init__` and no server is built
  (tcp_server_V2.py:26, 31).
- A failing `sendall` is not modelled: sends always succeed. In the code, a
  failure inside the `try` triggers one more attempt that sends the
  internal-error line.
- A failing write in `save_to_log` is not modelled. The code catches it, so
  it would not change the reply.
- The `logging` calls are not modelled. They are output only.
- `datetime.now()` is not modelled: the time stamp is a parameter.
- The text layout of the results file is not modelled: the banner lines, the
  labelled lines and the separator. The model keeps only which entries the
  file holds and in what order.
- Chars.Lower: characters above U+00FF are treated as neither letter nor
  whitespace and are not lowered, because the Unicode tables are out of
  scope. Python's `lower` may also lengthen such a character, which the
  model does not capture.
- LastVowelServer.IsPrime: the loop bound `int(n ** 0.5)` is a float square
  root. It is modelled as the exact bound `i * i <= n`; floating point
  rounding for very large counts is not captured.
- The host, port, pool size and log-file path are not modelled. They are
  configuration and do not affect the analysis.
