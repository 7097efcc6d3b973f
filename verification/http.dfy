/** The two canned answers `NewConnectionHandler` sends to a plain HTTP request, and the decimal
    text of the port that goes into the redirect. */
module Http {
  import opened Base

  /** The `Int32.ToString()` text of a non-negative number: its decimal digits, most significant
      first, with no leading zero. */
  function Decimal(n: nat): (s: string)
    ensures |s| >= 1 && AllDigits(s) && DigitsValue(s) == n
    ensures n > 0 ==> s[0] != '0'
    decreases n
  {
    if n < 10 then [DigitChar(n)]
    else
      var init := Decimal(n / 10);
      var s := init + [DigitChar(n % 10)];
      assert s[..|s| - 1] == init;
      s
  }

  function DigitChar(d: nat): (c: char)
    requires d < 10
    ensures '0' <= c <= '9' && (c as int) - ('0' as int) == d
  {
    (('0' as int) + d) as char
  }

  predicate AllDigits(s: string) {
    forall i :: 0 <= i < |s| ==> '0' <= s[i] <= '9'
  }

  /** The number a string of decimal digits stands for. */
  function DigitsValue(s: string): nat
    requires AllDigits(s)
  {
    if s == [] then 0
    else DigitsValue(s[..|s| - 1]) * 10 + ((s[|s| - 1] as int) - ('0' as int))
  }

  /** Two digit strings without leading zeros that stand for the same number are the same string,
      so `Decimal` is the only such text of its number. */
  lemma {:induction false} DecimalUnique(s: string, n: nat)
    requires |s| >= 1 && AllDigits(s) && (|s| > 1 ==> s[0] != '0') && DigitsValue(s) == n
    ensures s == Decimal(n)
    decreases |s|
  {
    var last := (s[|s| - 1] as int) - ('0' as int);
    var init := s[..|s| - 1];
    if |s| == 1 {
      assert DigitsValue(init) == 0;
      assert n == last < 10;
    } else {
      assert init[0] == s[0];
      LeadingDigitPositive(init);
      assert n / 10 == DigitsValue(init) && n % 10 == last;
      DecimalUnique(init, n / 10);
      assert s == init + [s[|s| - 1]];
    }
  }

  /** A digit string that does not start with `0` stands for a positive number. */
  lemma {:induction false} LeadingDigitPositive(s: string)
    requires |s| >= 1 && AllDigits(s) && s[0] != '0'
    ensures DigitsValue(s) > 0
    decreases |s|
  {
    if |s| > 1 {
      var init := s[..|s| - 1];
      assert init[0] == s[0];
      LeadingDigitPositive(init);
    }
  }

  /** The text up to the first line feed. */
  function FirstLine(s: string): (line: string)
    ensures '\n' !in line && line <= s
    ensures |line| < |s| ==> s[|line|] == '\n'
  {
    if s == [] || s[0] == '\n' then []
    else [s[0]] + FirstLine(s[1..])
  }

  /** The first line of a text that starts with a line without a line feed is that line. */
  lemma {:induction false} FirstLineOf(line: string, rest: string)
    requires '\n' !in line
    ensures FirstLine(line + "\n" + rest) == line
    decreases |line|
  {
    if line != [] {
      assert (line + "\n" + rest)[1..] == line[1..] + "\n" + rest;
      FirstLineOf(line[1..], rest);
    }
  }

  const MovedStatus: string := "HTTP/1.1 301 Moved Permanently"
  const UnavailableStatus: string := "HTTP/1.1 503 Service Unavailable"
  const MovedTail: string := "Connection: close\n\n"
  const UnavailableTail: string := "Connection: close\n\nThis is not a web server"

  /** The `Location` of the redirect: the local address, with the port unless it is 80. Read
      back, the URL is `http://` and the address, and anything after them is `:` followed by the
      decimal digits of the port; there is something after them exactly when the port is not 80. */
  function Location(address: string, port: int): (url: string)
    requires port > 0
    ensures |url| >= 7 + |address| && url[..7 + |address|] == "http://" + address
    ensures port != 80 <==> |url| > 7 + |address|
    ensures port != 80 ==>
              && url[7 + |address|] == ':'
              && AllDigits(url[8 + |address|..])
              && DigitsValue(url[8 + |address|..]) == port
              && url[8 + |address|] != '0'
  {
    var origin := "http://" + address;
    if port != 80 then
      var url := origin + (":" + Decimal(port));
      assert url[..|origin|] == origin && url[|origin|] == ':' && url[|origin| + 1..] == Decimal(port);
      url
    else origin
  }

  /** The answer to an HTTP request: a redirect to the HTTP server when its port is positive, and
      "service unavailable" otherwise. */
  function HttpReply(address: string, port: int): (text: string)
    ensures port > 0 ==> MovedStatus <= text && |text| >= |MovedTail| && text[|text| - |MovedTail|..] == MovedTail
    ensures port <= 0 ==>
              && UnavailableStatus <= text && |text| >= |UnavailableTail|
              && text[|text| - |UnavailableTail|..] == UnavailableTail
  {
    if port > 0 then
      var head := MovedStatus + "\n" + ("Location: " + Location(address, port)) + "\n";
      DropPrefix(head, MovedTail);
      head + MovedTail
    else
      DropPrefix(UnavailableStatus + "\n", UnavailableTail);
      UnavailableStatus + "\n" + UnavailableTail
  }

  /** The status line says 301 exactly when the port is positive, and 503 otherwise. */
  lemma HttpReplyStatus(address: string, port: int)
    ensures FirstLine(HttpReply(address, port)) == (if port > 0 then MovedStatus else UnavailableStatus)
  {
    if port > 0 {
      var header := "Location: " + Location(address, port);
      Regroup(MovedStatus, "\n", header, "\n", MovedTail);
      FirstLineOf(MovedStatus, header + "\n" + MovedTail);
    } else {
      FirstLineOf(UnavailableStatus, UnavailableTail);
    }
  }

  /** The second line of the redirect is the `Location` header, whose URL is the address, then
      `:` and the port in decimal exactly when the port is not 80. */
  lemma RedirectLocation(address: string, port: int)
    requires port > 0 && '\n' !in address
    ensures var text := HttpReply(address, port);
            |FirstLine(text)| < |text|
            && FirstLine(text[|FirstLine(text)| + 1..])
               == "Location: " + Location(address, port)
  {
    var header := "Location: " + Location(address, port);
    NoLineFeedInHeader(address, port);
    HttpReplyMoved(address, port);
    StatusLines();
    SecondLineOf(HttpReply(address, port), MovedStatus, header, MovedTail);
  }

  /** The status lines are single lines. */
  lemma StatusLines()
    ensures '\n' !in MovedStatus && '\n' !in UnavailableStatus
  {
  }

  lemma HttpReplyMoved(address: string, port: int)
    requires port > 0
    ensures HttpReply(address, port) == MovedStatus + "\n" + ("Location: " + Location(address, port)) + "\n" + MovedTail
  {
  }

  /** The second line of a text whose first two lines have no line feed of their own. */
  lemma SecondLineOf(text: string, first: string, second: string, tail: string)
    requires '\n' !in first && '\n' !in second
    requires text == first + "\n" + second + "\n" + tail
    ensures |FirstLine(text)| < |text| && FirstLine(text[|FirstLine(text)| + 1..]) == second
  {
    Regroup(first, "\n", second, "\n", tail);
    FirstLineOf(first, second + "\n" + tail);
    DropPrefix(first + "\n", second + "\n" + tail);
    FirstLineOf(second, tail);
  }

  lemma NoLineFeedInHeader(address: string, port: int)
    requires port > 0 && '\n' !in address
    ensures '\n' !in "Location: " + Location(address, port)
  {
    var d := Decimal(port);
    assert '\n' !in d by {
      forall i | 0 <= i < |d| ensures d[i] != '\n' {
        assert '0' <= d[i] <= '9';
      }
    }
  }
}
