/**
 * The last-character server (`TCPServer`): each connection sends one text,
 * and the reply is how many times the text's last character occurs in it,
 * ignoring case.
 */
module LastCharServer {
  import opened Chars
  import opened Counting
  import opened Decimal
  import opened Sockets

  /** `count_last_character`: occurrences of the lowered last character in the lowered text. */
  function CountLastCharacter(text: string): (r: nat)
    ensures text == [] ==> r == 0
    ensures text != [] ==> 1 <= r <= |text|
    ensures text != [] ==> r == |Positions(text, Lower(text[|text| - 1]))|
  {
    if text == [] then 0
    else
      var last := Lower(text[|text| - 1]);
      OccurrencesArePositions(text, last);
      OccurrencesPositive(text, last, |text| - 1);
      Occurrences(text, last)
  }

  /** `validate_text`, i.e. `str.isalpha`: at least one character, and every character a letter. */
  function ValidateText(text: string): (ok: bool)
    ensures ok <==> text != [] && forall i | 0 <= i < |text| :: IsAlpha(text[i])
  {
    text != [] && IsAlpha(text[0]) && (|text| == 1 || ValidateText(text[1..]))
  }

  /** How one connection ends. */
  datatype Outcome =
    | NoData          // nothing but whitespace was received
    | NotAlphabetic   // the stripped text holds a non-letter
    | Counted(count: nat)
    | InternalError   // receiving or decoding raised

  /** The decision `handle_client` takes on what it read, in the order of its branches. */
  function Decide(incoming: Incoming): Outcome {
    match incoming
    case ReceiveFailed => InternalError
    case Received(raw) =>
      var data := Strip(raw);
      if data == [] then NoData
      else if !ValidateText(data) then NotAlphabetic
      else Counted(CountLastCharacter(data))
  }

  /** The bytes `handle_client` sends for each outcome. */
  function Reply(outcome: Outcome): string {
    match outcome
    case NoData => ErrorLine("No se recibieron datos")
    case NotAlphabetic => ErrorLine("El mensaje debe contener solo caracteres alfabéticos")
    case Counted(n) => NatToDecimal(n) + "\n"
    case InternalError => ErrorLine("Error interno del servidor")
  }

  /** Which branch fires, stated on the received text. */
  lemma DecideBranches(raw: string)
    ensures Decide(Received(raw)) == NoData <==> forall i | 0 <= i < |raw| :: IsSpace(raw[i])
    ensures Decide(Received(raw)) == NotAlphabetic <==>
              Strip(raw) != [] && exists i | 0 <= i < |Strip(raw)| :: !IsAlpha(Strip(raw)[i])
    ensures Decide(Received(raw)).Counted? <==> ValidateText(Strip(raw))
    ensures Decide(Received(raw)).Counted? ==>
              var data := Strip(raw);
              var n := Decide(Received(raw)).count;
              1 <= n <= |data| && n == |Positions(data, Lower(data[|data| - 1]))|
  {
  }

  /** The error reasons hold no newline. */
  lemma ReasonsHaveNoNewline()
    ensures NoNewline("No se recibieron datos")
    ensures NoNewline("El mensaje debe contener solo caracteres alfabéticos")
    ensures NoNewline("Error interno del servidor")
  {
    NoNewlineConcat("El mensaje debe contener ", "solo caracteres alfabéticos");
  }

  /** Every reply is one line; a success reads back as the count, every other reply is tagged `ERROR: `. */
  lemma ReplyReadsBack(outcome: Outcome)
    ensures IsLine(Reply(outcome))
    ensures outcome.Counted? ==>
              var r := Reply(outcome);
              IsDigits(r[..|r| - 1]) && DecimalValue(r[..|r| - 1]) == outcome.count
    ensures !outcome.Counted? ==> Reply(outcome)[..7] == "ERROR: "
  {
    ReasonsHaveNoNewline();
    match outcome
    case Counted(n) =>
      var r := Reply(outcome);
      assert r[..|r| - 1] == NatToDecimal(n);
      DecimalRoundTrip(n);
      LineOf(NatToDecimal(n));
    case NoData =>
      ErrorLineIsLine("No se recibieron datos");
    case NotAlphabetic =>
      ErrorLineIsLine("El mensaje debe contener solo caracteres alfabéticos");
    case InternalError =>
      ErrorLineIsLine("Error interno del servidor");
  }

  /** Upper- or lower-casing any character of the text does not change the count. */
  lemma CountIgnoresCase(s: string, t: string)
    requires |s| == |t|
    requires forall i | 0 <= i < |s| :: Lower(s[i]) == Lower(t[i])
    ensures CountLastCharacter(s) == CountLastCharacter(t)
  {
    if s != [] {
      OccurrencesIgnoreCase(s, t, Lower(s[|s| - 1]));
    }
  }

  /** In particular, counting on `text.lower()` gives the same answer. */
  lemma CountOfLowered(s: string)
    ensures CountLastCharacter(LowerString(s)) == CountLastCharacter(s)
  {
    forall i | 0 <= i < |s| ensures Lower(LowerString(s)[i]) == Lower(s[i]) {
      LowerIdempotent(s[i]);
    }
    CountIgnoresCase(LowerString(s), s);
  }

  /** Text made of letters only passes both checks untouched and is counted. */
  lemma LettersOnlyCounted(text: string, n: nat)
    requires text != [] && forall i | 0 <= i < |text| :: IsAlpha(text[i])
    requires |Positions(text, Lower(text[|text| - 1]))| == n
    ensures Decide(Received(text)) == Counted(n)
  {
    StripOfTrimmed(text);
  }

  /** "hola": the last letter a occurs once. */
  lemma HolaCountsOne()
    ensures Decide(Received("hola")) == Counted(1)
  {
    assert Positions("hola", 'a') == {3};
    LettersOnlyCounted("hola", 1);
  }

  /** "banana": the last letter a occurs three times. */
  lemma BananaCountsThree()
    ensures Decide(Received("banana")) == Counted(3)
  {
    assert Positions("banana", 'a') == {1, 3, 5};
    LettersOnlyCounted("banana", 3);
  }

  /** "abcdefg": the last letter g occurs once. */
  lemma AbcdefgCountsOne()
    ensures Decide(Received("abcdefg")) == Counted(1)
  {
    assert Positions("abcdefg", 'g') == {6};
    LettersOnlyCounted("abcdefg", 1);
  }

  /** "aaa": every letter is the last one. */
  lemma AaaCountsThree()
    ensures Decide(Received("aaa")) == Counted(3)
  {
    assert Positions("aaa", 'a') == {0, 1, 2};
    LettersOnlyCounted("aaa", 3);
  }

  /** "reconocer" holds two r's, at its first and last position: the server answers 2, not the 3 the test client's comment expects. */
  lemma ReconocerCountsTwo()
    ensures Decide(Received("reconocer")) == Counted(2)
  {
    assert Positions("reconocer", 'r') == {0, 8};
    LettersOnlyCounted("reconocer", 2);
  }

  /** Text with no whitespace at either end and a non-letter somewhere is rejected as it stands. */
  lemma NonLetterRejected(text: string, k: nat)
    requires text != [] && !IsSpace(text[0]) && !IsSpace(text[|text| - 1])
    requires k < |text| && !IsAlpha(text[k])
    ensures Decide(Received(text)) == NotAlphabetic
  {
    StripOfTrimmed(text);
  }

  /** "test123", which the test client expects to fail: the digits are not letters. */
  lemma DigitsRejected()
    ensures Decide(Received("test123")) == NotAlphabetic
  {
    NonLetterRejected("test123", 4);
  }

  /** "hello world", which the test client expects to fail: the inner space is not a letter. */
  lemma InnerSpaceRejected()
    ensures Decide(Received("hello world")) == NotAlphabetic
  {
    NonLetterRejected("hello world", 5);
  }

  /** Nothing at all is the no-data error. */
  lemma EmptyNoData()
    ensures Decide(Received("")) == NoData
  {
    DecideBranches("");
  }

  /** Nothing but whitespace is the no-data error too. */
  lemma WhitespaceNoData()
    ensures Decide(Received(" \r\n")) == NoData
  {
    DecideBranches(" \r\n");
  }

  /** The body of the `try` in `handle_client`: strip, check, count, reply. */
  method Serve(sock: ClientSocket, raw: string)
    requires sock.IsOpen()
    modifies sock
    ensures sock.events == old(sock.events) + [Sent(Reply(Decide(Received(raw))))]
    ensures sock.IsOpen()
  {
    var data := Strip(raw);
    if data == [] {
      sock.SendAll(ErrorLine("No se recibieron datos"));
      return;
    }
    if !ValidateText(data) {
      sock.SendAll(ErrorLine("El mensaje debe contener solo caracteres alfabéticos"));
      return;
    }
    var count := CountLastCharacter(data);
    sock.SendAll(NatToDecimal(count) + "\n");
  }

  /** `handle_client`: one reply, then the socket is closed exactly once, whichever way the handler ends. */
  method HandleClient(sock: ClientSocket, incoming: Incoming)
    requires sock.IsOpen()
    modifies sock
    ensures sock.events == old(sock.events) + [Sent(Reply(Decide(incoming))), Closed]
  {
    match incoming {
      case Received(raw) =>
        Serve(sock, raw);
      case ReceiveFailed =>
        sock.SendAll(ErrorLine("Error interno del servidor"));
    }
    sock.Close();
  }
}
