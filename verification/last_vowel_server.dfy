/**
 * The last-vowel server (`TCPServerEnhanced`): each connection sends one
 * text of letters and whitespace; the reply is how many times the text's
 * last vowel occurs in it, ignoring case, and each success is saved in the
 * results file with whether that count is prime.
 */
module LastVowelServer {
  import opened Chars
  import opened Counting
  import opened Decimal
  import opened Options
  import opened Sockets
  import opened ResultLog
  import opened Arithmetic

  /** `self.vowels`: the set of the characters of "aeiouAEIOU". */
  const Vowels: set<char> := {'a', 'e', 'i', 'o', 'u', 'A', 'E', 'I', 'O', 'U'}

  predicate IsVowel(c: char) {
    c in Vowels
  }

  /** The last vowel of the text, lowered, or none: the value `find_last_vowel` returns. */
  function LastVowel(text: string): (v: Option<char>)
    ensures v.None? <==> forall i | 0 <= i < |text| :: !IsVowel(text[i])
    ensures v.Some? ==> IsVowel(v.value) && !IsUpper(v.value)
  {
    if text == [] then None
    else if IsVowel(text[|text| - 1]) then Some(Lower(text[|text| - 1]))
    else LastVowel(text[..|text| - 1])
  }

  /** A vowel with no vowel after it decides the answer. */
  lemma {:induction false} LastVowelAt(text: string, k: nat)
    requires k < |text| && IsVowel(text[k])
    requires forall j | k < j < |text| :: !IsVowel(text[j])
    ensures LastVowel(text) == Some(Lower(text[k]))
  {
    if k < |text| - 1 {
      var prefix := text[..|text| - 1];
      LastVowelAt(prefix, k);
    }
  }

  /** Conversely, a found vowel comes from a position with no vowel after it. */
  lemma {:induction false} LastVowelIndex(text: string) returns (k: nat)
    requires LastVowel(text).Some?
    ensures k < |text| && IsVowel(text[k]) && LastVowel(text).value == Lower(text[k])
    ensures forall j | k < j < |text| :: !IsVowel(text[j])
  {
    if IsVowel(text[|text| - 1]) {
      k := |text| - 1;
    } else {
      k := LastVowelIndex(text[..|text| - 1]);
    }
  }

  /** `find_last_vowel`: scans from the right and stops at the first vowel it meets. */
  method FindLastVowel(text: string) returns (v: Option<char>)
    ensures v == LastVowel(text)
  {
    var i := |text|;
    assert text[..i] == text;
    while i > 0
      invariant 0 <= i <= |text|
      invariant LastVowel(text) == LastVowel(text[..i])
    {
      if IsVowel(text[i - 1]) {
        return Some(Lower(text[i - 1]));
      }
      assert text[..i][..i - 1] == text[..i - 1];
      i := i - 1;
    }
    return None;
  }

  /** `count_vowel_occurrences`: no vowel (None or "") counts 0; otherwise the lowered vowel is compared
      with each lowered character, so only a one-character vowel can match. */
  function CountVowelOccurrences(text: string, vowel: Option<string>): (r: nat)
    ensures r <= |text|
    ensures (vowel == None || vowel == Some("")) ==> r == 0
    ensures vowel.Some? && |vowel.value| == 1 ==> r == |Positions(text, Lower(vowel.value[0]))|
    ensures vowel.Some? && |vowel.value| > 1 ==> r == 0
  {
    match vowel
    case None => 0
    case Some(v) =>
      if v == [] then 0
      else
        var target := LowerString(v);
        if |target| == 1 then
          OccurrencesArePositions(text, target[0]);
          Occurrences(text, target[0])
        else 0
  }

  /** The last vowel of a text occurs in it at least once. */
  lemma LastVowelCounted(text: string)
    requires LastVowel(text).Some?
    ensures 1 <= CountVowelOccurrences(text, Some([LastVowel(text).value])) <= |text|
  {
    var k := LastVowelIndex(text);
    var v := LastVowel(text).value;
    LowerIdempotent(text[k]);
    OccurrencesPositive(text, Lower(v), k);
    OccurrencesArePositions(text, Lower(v));
  }

  /** The reference definition: at least 2 and without a divisor between 2 and itself. */
  predicate Prime(n: int) {
    n >= 2 && forall d | 2 <= d < n :: n % d != 0
  }

  lemma SmallPrimes()
    ensures !Prime(0) && !Prime(1) && Prime(2) && Prime(3)
  {
  }

  lemma EvenNotPrime(n: int)
    requires n > 2 && n % 2 == 0
    ensures !Prime(n)
  {
    assert 2 <= 2 < n && n % 2 == 0;
  }

  /** A divisor strictly between 1 and `n` makes `n` composite. */
  lemma DivisorNotPrime(n: int, d: int)
    requires 3 <= d && d * d <= n && n % d == 0
    ensures !Prime(n)
  {
    MulMono(1, d, d);
    assert 2 <= d < n;
  }

  /** Once the candidates pass the square root without a divisor, there is none at all. */
  lemma NoDivisorPastRoot(n: int, i: int)
    requires 2 <= i && n < i * i && 2 < n
    requires forall d | 2 <= d < i :: n % d != 0
    ensures Prime(n)
  {
    forall d | i <= d < n
      ensures n % d != 0
    {
      if n % d == 0 {
        SmallCofactor(n, d, i);
      }
    }
  }

  /** `is_prime`: 2 is prime, other even numbers are not, and odd numbers are tried against odd divisors up to the square root. */
  method IsPrime(n: int) returns (b: bool)
    ensures b == Prime(n)
  {
    if n < 2 {
      return false;
    }
    if n == 2 {
      return true;
    }
    if n % 2 == 0 {
      EvenNotPrime(n);
      return false;
    }
    var i := 3;
    while i * i <= n
      invariant 3 <= i && i % 2 == 1
      invariant forall d | 2 <= d < i :: n % d != 0
    {
      if n % i == 0 {
        DivisorNotPrime(n, i);
        return false;
      }
      EvenDoesNotDivideOdd(n, i + 1);
      i := i + 2;
    }
    NoDivisorPastRoot(n, i);
    return true;
  }

  /** `validate_text`: every character a letter or whitespace; the empty text passes. */
  function ValidateText(text: string): (ok: bool)
    ensures ok <==> forall i | 0 <= i < |text| :: IsAlpha(text[i]) || IsSpace(text[i])
  {
    text == [] || ((IsAlpha(text[0]) || IsSpace(text[0])) && ValidateText(text[1..]))
  }

  /** How one connection ends. */
  datatype Outcome =
    | NoData              // nothing but whitespace was received
    | InvalidCharacters   // a character that is neither a letter nor whitespace
    | OnlySpaces          // the whitespace-only check
    | NoVowel
    | Counted(message: string, vowel: char, count: nat, prime: bool)
    | InternalError       // receiving or decoding raised

  /** The decision `handle_client` takes on what it read, branch by branch in the order of the code. */
  function Decide(incoming: Incoming): Outcome {
    match incoming
    case ReceiveFailed => InternalError
    case Received(raw) =>
      var data := Strip(raw);
      if data == [] then NoData
      else if !ValidateText(data) then InvalidCharacters
      else if Strip(data) == [] then OnlySpaces
      else match LastVowel(data)
        case None => NoVowel
        case Some(v) =>
          var count := CountVowelOccurrences(data, Some([v]));
          Counted(data, v, count, Prime(count))
  }

  /** The bytes `handle_client` sends for each outcome. */
  function Reply(outcome: Outcome): string {
    match outcome
    case NoData => ErrorLine("No se recibieron datos")
    case InvalidCharacters => ErrorLine("El mensaje debe contener solo letras y espacios")
    case OnlySpaces => ErrorLine("El mensaje no puede estar vacío o contener solo espacios")
    case NoVowel => ErrorLine("El mensaje debe contener al menos una vocal")
    case Counted(_, _, n, _) => NatToDecimal(n) + "\n"
    case InternalError => ErrorLine("Error interno del servidor")
  }

  /** The error reasons hold no newline. */
  lemma ReasonsHaveNoNewline()
    ensures NoNewline("No se recibieron datos")
    ensures NoNewline("El mensaje debe contener solo letras y espacios")
    ensures NoNewline("El mensaje no puede estar vacío o contener solo espacios")
    ensures NoNewline("El mensaje debe contener al menos una vocal")
    ensures NoNewline("Error interno del servidor")
  {
    LongReasonsHaveNoNewline();
  }

  lemma LongReasonsHaveNoNewline()
    ensures NoNewline("El mensaje debe contener solo letras y espacios")
    ensures NoNewline("El mensaje no puede estar vacío o contener solo espacios")
  {
    NoNewlineConcat("El mensaje debe contener ", "solo letras y espacios");
    NoNewlineConcat("El mensaje no puede estar ", "vacío o contener solo espacios");
  }

  /** Every reply is one line; a success reads back as the count, every other reply is tagged `ERROR: `. */
  lemma ReplyReadsBack(outcome: Outcome)
    ensures IsLine(Reply(outcome))
    ensures outcome.Counted? ==>
              var r := Reply(outcome);
              IsDigits(r[..|r| - 1]) && DecimalValue(r[..|r| - 1]) == outcome.count
    ensures !outcome.Counted? ==> Reply(outcome)[..7] == "ERROR: "
  {
    ReasonsHaveNoNewline();
    match outcome
    case Counted(_, _, n, _) =>
      var r := Reply(outcome);
      assert r[..|r| - 1] == NatToDecimal(n);
      DecimalRoundTrip(n);
      LineOf(NatToDecimal(n));
    case NoData =>
      ErrorLineIsLine("No se recibieron datos");
    case InvalidCharacters =>
      ErrorLineIsLine("El mensaje debe contener solo letras y espacios");
    case OnlySpaces =>
      ErrorLineIsLine("El mensaje no puede estar vacío o contener solo espacios");
    case NoVowel =>
      ErrorLineIsLine("El mensaje debe contener al menos una vocal");
    case InternalError =>
      ErrorLineIsLine("Error interno del servidor");
  }

  function PrimeLabel(prime: bool): string {
    if prime then "SI" else "NO"
  }

  /** The label reads back as the primality it records. */
  lemma PrimeLabelReadsBack(prime: bool)
    ensures PrimeLabel(prime) == "SI" <==> prime
  {
    if !prime {
      assert PrimeLabel(prime)[0] == 'N';
    }
  }

  /** The record a successful analysis saves, stamped with the given time; nothing for any other outcome. */
  function LogRecord(outcome: Outcome, timestamp: string): Option<Record> {
    match outcome
    case Counted(message, v, n, p) => Some(Record(timestamp, message, v, n, PrimeLabel(p)))
    case _ => None
  }

  /** The results file after one connection: one more record on success, unchanged otherwise. */
  function LogAfter(log: LogState, outcome: Outcome, timestamp: string): LogState {
    match LogRecord(outcome, timestamp)
    case Some(r) => Appended(log, r)
    case None => log
  }

  /** The whitespace-only check can never fire: the text was already stripped and found non-empty. */
  lemma OnlySpacesUnreachable(incoming: Incoming)
    ensures Decide(incoming) != OnlySpaces
  {
    if incoming.Received? {
      var data := Strip(incoming.raw);
      if data != [] {
        assert Strip(data) != [] by {
          StripIdempotent(incoming.raw);
        }
      }
    }
  }

  /** The error branches fire in order: no data, then an invalid character, then no vowel. */
  lemma ErrorOrder(raw: string)
    ensures var o := Decide(Received(raw));
            o == NoData <==> forall i | 0 <= i < |raw| :: IsSpace(raw[i])
    ensures var o := Decide(Received(raw)); var data := Strip(raw);
            o == InvalidCharacters <==>
              data != [] && exists i | 0 <= i < |data| :: !IsAlpha(data[i]) && !IsSpace(data[i])
    ensures var o := Decide(Received(raw)); var data := Strip(raw);
            o == NoVowel <==>
              data != [] && ValidateText(data) && forall i | 0 <= i < |data| :: !IsVowel(data[i])
    ensures var o := Decide(Received(raw)); var data := Strip(raw);
            o.Counted? <==>
              data != [] && ValidateText(data) && exists i | 0 <= i < |data| :: IsVowel(data[i])
  {
    OnlySpacesUnreachable(Received(raw));
  }

  /** What a success reports: the stripped message, its last vowel, a count of at least one, and its primality. */
  lemma SuccessReport(raw: string)
    requires Decide(Received(raw)).Counted?
    ensures var o := Decide(Received(raw)); var data := Strip(raw);
            && o.message == data
            && LastVowel(data) == Some(o.vowel)
            && IsVowel(o.vowel) && !IsUpper(o.vowel)
            && 1 <= o.count <= |data|
            && o.count == |Positions(data, o.vowel)|
            && o.prime == Prime(o.count)
  {
    var data := Strip(raw);
    OnlySpacesUnreachable(Received(raw));
    assert data != [] && ValidateText(data) && Strip(data) != [];
    var v := LastVowel(data).value;
    var count := CountVowelOccurrences(data, Some([v]));
    assert Decide(Received(raw)) == Counted(data, v, count, Prime(count));
    LastVowelCounted(data);
    assert Lower(v) == v;
  }

  /** Exactly the successful connections leave a record, and it holds what the reply reports. */
  lemma RecordIffSuccess(outcome: Outcome, timestamp: string)
    ensures LogRecord(outcome, timestamp).Some? <==> outcome.Counted?
    ensures outcome.Counted? ==>
              var r := LogRecord(outcome, timestamp).value;
              r.timestamp == timestamp && r.message == outcome.message && r.lastVowel == outcome.vowel
              && r.count == outcome.count && (r.isPrime == "SI" <==> outcome.prime)
  {
    if outcome.Counted? {
      PrimeLabelReadsBack(outcome.prime);
    }
  }

  /** A successful message sent twice is saved twice: two records with the same analysis, differing only in their time stamps. */
  lemma RepeatedMessage(log: LogState, raw: string, t1: string, t2: string)
    requires Decide(Received(raw)).Counted?
    ensures var o := Decide(Received(raw));
            var twice := LogAfter(LogAfter(log, o, t1), o, t2);
            var r1, r2 := LogRecord(o, t1).value, LogRecord(o, t2).value;
            && Records(twice.entries) == Records(log.entries) + [r1, r2]
            && r1.(timestamp := t2) == r2
  {
    var o := Decide(Received(raw));
    var once := LogAfter(log, o, t1);
    AppendAddsOneRecord(log, LogRecord(o, t1).value);
    AppendAddsOneRecord(once, LogRecord(o, t2).value);
  }

  /** The server object: the path-bound results file it appends to. */
  class EnhancedServer {
    var log: LogState

    /** `__init__`: starts from the file as found on disk and initialises it. */
    constructor (existing: LogState)
      requires Consistent(existing)
      ensures log == Initialized(existing)
    {
      log := existing;
      new;
      InitializeLogFile();
    }

    /** `_initialize_log_file`: writes the banner only when the file is absent. */
    method InitializeLogFile()
      modifies this
      ensures log.present
      ensures old(log.present) ==> log == old(log)
      ensures !old(log.present) ==> log.entries == [Header]
      ensures log == Initialized(old(log))
    {
      if !log.present {
        log := LogState(true, [Header]);
      }
    }

    /** `save_to_log`: appends one record after everything already in the file. */
    method SaveToLog(timestamp: string, message: string, count: nat, isPrimeResult: string, lastVowel: char)
      modifies this
      ensures log == Appended(old(log), Record(timestamp, message, lastVowel, count, isPrimeResult))
      ensures log.entries[..|old(log.entries)|] == old(log.entries)
      ensures Records(log.entries) == Records(old(log.entries)) + [Record(timestamp, message, lastVowel, count, isPrimeResult)]
    {
      log := LogState(true, log.entries + [Rec(Record(timestamp, message, lastVowel, count, isPrimeResult))]);
      AppendAddsOneRecord(old(log), Record(timestamp, message, lastVowel, count, isPrimeResult));
    }

    /** The body of the `try` in `handle_client`: strip, check, find the vowel, count, test, save, reply. */
    method Serve(sock: ClientSocket, raw: string, timestamp: string)
      requires sock.IsOpen()
      modifies this, sock
      ensures sock.events == old(sock.events) + [Sent(Reply(Decide(Received(raw))))]
      ensures sock.IsOpen()
      ensures log == LogAfter(old(log), Decide(Received(raw)), timestamp)
    {
      var data := Strip(raw);
      if data == [] {
        assert Decide(Received(raw)) == NoData;
        sock.SendAll(ErrorLine("No se recibieron datos"));
        return;
      }
      if !ValidateText(data) {
        assert Decide(Received(raw)) == InvalidCharacters;
        sock.SendAll(ErrorLine("El mensaje debe contener solo letras y espacios"));
        return;
      }
      if Strip(data) == [] {
        // the whitespace-only check: `data` was stripped and is not empty
        assert false;
      }
      var lastVowel := FindLastVowel(data);
      if lastVowel.None? {
        assert Decide(Received(raw)) == NoVowel;
        sock.SendAll(ErrorLine("El mensaje debe contener al menos una vocal"));
        return;
      }
      var count := CountVowelOccurrences(data, Some([lastVowel.value]));
      var prime := IsPrime(count);
      var isPrimeResult := PrimeLabel(prime);
      assert Decide(Received(raw)) == Counted(data, lastVowel.value, count, prime);
      SaveToLog(timestamp, data, count, isPrimeResult, lastVowel.value);
      sock.SendAll(NatToDecimal(count) + "\n");
    }

    /** `handle_client`: one reply, at most one record, and the socket closed exactly once on every path. */
    method HandleClient(sock: ClientSocket, incoming: Incoming, timestamp: string)
      requires sock.IsOpen()
      modifies this, sock
      ensures sock.events == old(sock.events) + [Sent(Reply(Decide(incoming))), Closed]
      ensures log == LogAfter(old(log), Decide(incoming), timestamp)
      ensures Records(log.entries) ==
                Records(old(log.entries)) + (if Decide(incoming).Counted? then [LogRecord(Decide(incoming), timestamp).value] else [])
    {
      match incoming {
        case Received(raw) =>
          Serve(sock, raw, timestamp);
        case ReceiveFailed =>
          sock.SendAll(ErrorLine("Error interno del servidor"));
      }
      sock.Close();
      if Decide(incoming).Counted? {
        AppendAddsOneRecord(old(log), LogRecord(Decide(incoming), timestamp).value);
      }
    }
  }
}
