/** Node addresses: the `SRAddress` parser and printer (`src/cpp/address.cpp`) and the second
    parser of `include/addressatcommand.h`. Texts are `std::string`s, a character per byte. */
module Address {
  import opened Basics

  // ---------------------------------------------------------------------------------------
  // std::stoul with base 0, and std::to_string
  // ---------------------------------------------------------------------------------------

  predicate IsSpace(c: char) {
    c == ' ' || c == '\t' || c == '\n' || c == '\r' || c as int == 0x0B || c as int == 0x0C
  }

  /** The value of a digit of any base up to 16; 16 if `c` is no digit. */
  function DigitValue(c: char): (r: nat)
    ensures r <= 16
  {
    if '0' <= c <= '9' then c as int - '0' as int
    else if 'a' <= c <= 'f' then c as int - 'a' as int + 10
    else if 'A' <= c <= 'F' then c as int - 'A' as int + 10
    else 16
  }

  /** How many digits of `base` a text begins with. */
  function DigitCount(s: string, base: nat): (n: nat)
    ensures n <= |s|
  {
    if s != "" && DigitValue(s[0]) < base then 1 + DigitCount(s[1..], base) else 0
  }

  function NumberOf(digits: string, base: nat): nat {
    if digits == "" then 0
    else NumberOf(digits[..|digits| - 1], base) * base + DigitValue(digits[|digits| - 1])
  }

  /** Base 0: `0x` before a hexadecimal digit, a leading `0`, or decimal. */
  function BaseAndDigits(s: string): (nat, string) {
    if |s| > 2 && s[0] == '0' && (s[1] == 'x' || s[1] == 'X') && DigitValue(s[2]) < 16 then (16, s[2..])
    else if s != "" && s[0] == '0' then (8, s)
    else (10, s)
  }

  /** `std::stoul(s, nullptr, 0)`: leading white space is skipped, and what follows the digits
      is ignored; no digit, or a number that does not fit 64 bits, throws; a minus sign wraps
      around. */
  function Stoul(s: string): Result<nat> {
    if s != "" && IsSpace(s[0]) then Stoul(s[1..])
    else if s != "" && (s[0] == '-' || s[0] == '+') then Unsigned(s[1..], s[0] == '-')
    else Unsigned(s, false)
  }

  function Unsigned(s: string, negative: bool): Result<nat> {
    var (base, body) := BaseAndDigits(s);
    var n := DigitCount(body, base);
    var value := NumberOf(body[..n], base);
    if n == 0 || value >= SIZE_LIMIT then Err(RuntimeError)
    else Ok(if negative && value > 0 then SIZE_LIMIT - value else value)
  }

  function DigitChar(d: nat): char
    requires d < 10
  {
    ('0' as int + d) as char
  }

  /** `std::to_string` of an unsigned number. */
  function Decimal(n: nat): (s: string)
    ensures s != ""
  {
    if n < 10 then [DigitChar(n)] else Decimal(n / 10) + [DigitChar(n % 10)]
  }

  ghost predicate AllDigits(s: string) {
    forall i :: 0 <= i < |s| ==> '0' <= s[i] <= '9'
  }

  lemma {:induction false} DecimalDigits(n: nat)
    ensures AllDigits(Decimal(n)) && NumberOf(Decimal(n), 10) == n
    ensures Decimal(n)[0] == '0' <==> n == 0
    ensures n == 0 ==> Decimal(n) == "0"
    decreases n
  {
    if n >= 10 {
      var front, last := Decimal(n / 10), DigitChar(n % 10);
      DecimalDigits(n / 10);
      assert (front + [last])[..|front + [last]| - 1] == front;
      assert DigitValue(last) == n % 10;
    } else {
      assert [DigitChar(n)][..0] == "";
      assert NumberOf("", 10) == 0;
    }
  }

  lemma {:induction false} DigitsCount(s: string)
    requires AllDigits(s)
    ensures DigitCount(s, 10) == |s|
  {
    if s != "" { DigitsCount(s[1..]); }
  }

  /** A decimal number survives the base detection, zero included. */
  lemma StoulOfDecimal(n: nat)
    requires n < SIZE_LIMIT
    ensures Stoul(Decimal(n)) == Ok(n)
  {
    var s := Decimal(n);
    DecimalDigits(n);
    assert '0' <= s[0] <= '9';
    if n == 0 {
      assert s == "0" && s[1..] == "";
      assert BaseAndDigits(s) == (8, s);
      assert DigitCount(s, 8) == 1;
      assert s[..1] == s && s[..0] == "";
      assert NumberOf(s, 8) == NumberOf(s[..0], 8) * 8 + 0;
    } else {
      DigitsCount(s);
      assert s[..|s|] == s;
    }
  }

  // What else base 0 reads: hexadecimal and octal numerals, signs, white space, trailing text.

  function DigitOf(d: nat): char
    requires d < 16
  {
    if d < 10 then ('0' as int + d) as char else ('a' as int + d - 10) as char
  }

  /** The numeral of `n` in a base. */
  function Numeral(n: nat, base: nat): (s: string)
    requires 2 <= base <= 16
    ensures s != ""
  {
    if n < base then [DigitOf(n)] else Numeral(n / base, base) + [DigitOf(n % base)]
  }

  ghost predicate DigitsOf(s: string, base: nat) {
    forall i :: 0 <= i < |s| ==> DigitValue(s[i]) < base
  }

  lemma {:induction false} DigitOfValue(d: nat)
    requires d < 16
    ensures DigitValue(DigitOf(d)) == d && (DigitOf(d) == '0' <==> d == 0)
  {
  }

  lemma {:induction false} DivisionStep(n: nat, base: nat)
    requires 2 <= base <= n
    ensures (n / base) * base + n % base == n && 0 < n / base < n && n % base < base
  {
  }

  lemma {:induction false} NumberSnoc(front: string, last: char, base: nat)
    ensures NumberOf(front + [last], base) == NumberOf(front, base) * base + DigitValue(last)
  {
    assert (front + [last])[..|front + [last]| - 1] == front;
  }

  lemma {:induction false} NumeralMeans(n: nat, base: nat)
    requires 2 <= base <= 16
    ensures DigitsOf(Numeral(n, base), base) && NumberOf(Numeral(n, base), base) == n
    ensures Numeral(n, base)[0] == '0' <==> n == 0
    decreases n
  {
    if n >= base {
      DivisionStep(n, base);
      NumeralMeans(n / base, base);
      NumberSnoc(Numeral(n / base, base), DigitOf(n % base), base);
      DigitOfValue(n % base);
    } else {
      NumberSnoc("", DigitOf(n), base);
      assert "" + [DigitOf(n)] == [DigitOf(n)];
      DigitOfValue(n);
    }
  }

  lemma {:induction false} CountDigits(digits: string, rest: string, base: nat)
    requires DigitsOf(digits, base) && (rest == "" || DigitValue(rest[0]) >= base)
    ensures DigitCount(digits + rest, base) == |digits|
    decreases |digits|
  {
    if digits == "" {
      assert digits + rest == rest;
    } else {
      assert (digits + rest)[1..] == digits[1..] + rest;
      CountDigits(digits[1..], rest, base);
    }
  }

  lemma {:induction false} LeadingZero(digits: string, base: nat)
    ensures NumberOf("0" + digits, base) == NumberOf(digits, base)
    decreases |digits|
  {
    if digits == "" {
      assert "0"[..0] == "" && "0" + digits == "0";
      assert NumberOf("", base) == 0;
    } else {
      var n := |digits| - 1;
      LeadingZero(digits[..n], base);
      assert ("0" + digits)[..|digits|] == "0" + digits[..n];
    }
  }

  /** The number, or 2^64 less it behind a minus sign; too large a one throws. */
  function Signed(n: nat, negative: bool): Result<nat> {
    if n >= SIZE_LIMIT then Err(RuntimeError) else Ok(if negative && n > 0 then SIZE_LIMIT - n else n)
  }

  /** Digits in a base that has been detected. */
  lemma {:induction false} UnsignedIs(s: string, base: nat, digits: string, rest: string, n: nat, negative: bool)
    requires BaseAndDigits(s) == (base, digits + rest) && digits != "" && DigitsOf(digits, base)
    requires rest == "" || DigitValue(rest[0]) >= base
    requires NumberOf(digits, base) == n
    ensures Unsigned(s, negative) == Signed(n, negative)
  {
    CountDigits(digits, rest, base);
    assert (digits + rest)[..|digits|] == digits;
  }

  lemma {:induction false} UnsignedHex(x: char, n: nat, rest: string, negative: bool)
    requires (x == 'x' || x == 'X') && (rest == "" || DigitValue(rest[0]) >= 16)
    ensures Unsigned("0" + [x] + (Numeral(n, 16) + rest), negative) == Signed(n, negative)
  {
    var digits := Numeral(n, 16);
    var s := "0" + [x] + (digits + rest);
    NumeralMeans(n, 16);
    assert s[2] == digits[0] && s[2..] == digits + rest;
    UnsignedIs(s, 16, digits, rest, n, negative);
  }

  lemma {:induction false} UnsignedDecimal(n: nat, rest: string, negative: bool)
    requires n > 0 && (rest == "" || DigitValue(rest[0]) >= 10)
    ensures Unsigned(Numeral(n, 10) + rest, negative) == Signed(n, negative)
  {
    var digits := Numeral(n, 10);
    NumeralMeans(n, 10);
    assert (digits + rest)[0] == digits[0];
    UnsignedIs(digits + rest, 10, digits, rest, n, negative);
  }

  lemma {:induction false} UnsignedOctal(n: nat, rest: string, negative: bool)
    requires rest == "" || DigitValue(rest[0]) >= 8
    ensures Unsigned("0" + Numeral(n, 8) + rest, negative) == Signed(n, negative)
  {
    var digits := "0" + Numeral(n, 8);
    NumeralMeans(n, 8);
    LeadingZero(Numeral(n, 8), 8);
    var s := digits + rest;
    assert s[0] == '0' && s[1] == Numeral(n, 8)[0] && DigitValue(s[1]) < 8;
    forall i | 0 <= i < |digits| ensures DigitValue(digits[i]) < 8 {
      if i > 0 { assert digits[i] == Numeral(n, 8)[i - 1]; }
    }
    UnsignedIs(s, 8, digits, rest, n, negative);
  }

  /** Without a digit after white space and sign the text is refused. */
  lemma {:induction false} NoDigit(s: string, negative: bool)
    requires s == "" || DigitValue(s[0]) >= 10
    ensures Unsigned(s, negative) == Err(RuntimeError)
  {
    assert BaseAndDigits(s) == (10, s);
  }

  /** White space before a number is skipped, and nothing else is. */
  lemma {:induction false} SpaceSkipped(c: char, s: string)
    ensures c in " \t\n\r" || c as int == 0x0B || c as int == 0x0C ==> Stoul([c] + s) == Stoul(s)
    ensures c !in " \t\n\r+-0123456789" && c as int != 0x0B && c as int != 0x0C ==> Stoul([c] + s) == Err(RuntimeError)
  {
    assert ([c] + s)[1..] == s;
    if DigitValue(c) >= 10 {
      NoDigit([c] + s, false);
    }
  }

  /** The digits in numbers. */
  lemma {:induction false} DigitValues(c: char)
    ensures forall d :: 0 <= d < 10 && c == "0123456789"[d] ==> DigitValue(c) == d
    ensures forall d :: 0 <= d < 6 && (c == "abcdef"[d] || c == "ABCDEF"[d]) ==> DigitValue(c) == 10 + d
    ensures c !in "0123456789abcdefABCDEF" ==> DigitValue(c) == 16
  {
  }

  /** One sign is read before a number. */
  lemma {:induction false} SignRead(s: string)
    ensures Stoul("-" + s) == Unsigned(s, true) && Stoul("+" + s) == Unsigned(s, false)
  {
    assert ("-" + s)[1..] == s && ("+" + s)[1..] == s;
  }

  /** A text that begins with a digit has no sign. */
  lemma {:induction false} NoSign(s: string)
    requires s != "" && DigitValue(s[0]) < 10
    ensures Stoul(s) == Unsigned(s, false)
  {
  }

  // ---------------------------------------------------------------------------------------
  // SRAddress
  // ---------------------------------------------------------------------------------------

  const UDS_SCHEME := "unix://"
  const TCP_SCHEME := "tcp://"
  const PORT_LIMIT := 0x1_0000

  datatype Place = Tcp(host: string, port: nat) | Uds(file: string)

  /** `s.compare(0, prefix.size(), prefix) == 0`. */
  predicate StartsWith(s: string, prefix: string) {
    prefix <= s
  }

  function StripTcp(s: string): string {
    if StartsWith(s, TCP_SCHEME) then s[|TCP_SCHEME|..] else s
  }

  /** The host before the first colon and the 16-bit port after it; neither text may be
      empty. */
  function HostPort(address: string): Result<Place> {
    match FindFirst(address, ':')
    case None => Err(RuntimeError)
    case Some(i) =>
      if i == 0 || i + 1 == |address| then Err(RuntimeError)
      else WithPort(address[..i], Stoul(address[i + 1..]))
  }

  function WithPort(host: string, port: Result<nat>): Result<Place> {
    match port
    case Err(e) => Err(e)
    case Ok(n) => Ok(Tcp(host, n % PORT_LIMIT))
  }

  /** What a text names: the file after `unix://`, or a host and a port. */
  function Named(spec: string): Result<Place> {
    if StartsWith(spec, UDS_SCHEME) then Ok(Uds(spec[|UDS_SCHEME|..])) else HostPort(StripTcp(spec))
  }

  function HostColon(host: string, port: string): string {
    host + ":" + port
  }

  function WithScheme(address: string, addTcpProtocol: bool): string {
    if addTcpProtocol then TCP_SCHEME + address else address
  }

  function Printed(place: Place, addTcpProtocol: bool): string {
    match place
    case Tcp(host, port) => WithScheme(HostColon(host, Decimal(port)), addTcpProtocol)
    case Uds(file) => UDS_SCHEME + file
  }

  /** `size() - 1` in unsigned words. */
  function SizeMinusOne(size: nat): (r: nat)
    requires size < SIZE_LIMIT
    ensures r == if size == 0 then SIZE_LIMIT - 1 else size - 1
  {
    (size + SIZE_LIMIT - 1) % SIZE_LIMIT
  }

  class SRAddress {
    var isTcp: bool
    var tcpHost: string
    var tcpPort: nat
    var udsFile: string

    function View(): Place
      reads this
    {
      if isTcp then Tcp(tcpHost, tcpPort) else Uds(udsFile)
    }

    /** The default constructor. */
    constructor ()
      ensures View() == Tcp("", 0)
    {
      isTcp, tcpHost, tcpPort, udsFile := true, "", 0, "";
    }

    /** The constructor from a text; the fields of an object whose constructor throws are never
        seen. `compare` and `find` work on unsigned words: an absent colon is the largest word,
        and the length of an empty text minus one is that word too. */
    method Parse(addrSpec: string) returns (outcome: Result<()>)
      requires |addrSpec| < SIZE_LIMIT
      modifies this
      ensures match Named(addrSpec)
              case Err(e) => outcome == Err(e)
              case Ok(place) => outcome.Ok? && View() == place
    {
      var prefix := UDS_SCHEME;
      isTcp := !StartsWith(addrSpec, prefix);
      if isTcp {
        var address := addrSpec;
        prefix := TCP_SCHEME;
        if StartsWith(address, prefix) {
          address := address[|prefix|..];
        }
        var npos := SIZE_LIMIT - 1;
        var colon := FindFirst(address, ':');
        var colonPosition := if colon.Some? then colon.value else npos;
        var sizeLessOne := SizeMinusOne(|address|);
        if colonPosition == 0 || colonPosition >= sizeLessOne || colonPosition == npos {
          return Err(RuntimeError);
        }
        tcpHost := address[..colonPosition];
        var portString := address[colonPosition + 1..];
        var port :- Stoul(portString);
        tcpPort := port % PORT_LIMIT;
      } else {
        udsFile := addrSpec[|prefix|..];
      }
      return Ok(());
    }

    /** `operator==` compares the fields that the kind of address uses. */
    predicate Equals(other: SRAddress)
      reads this, other
      ensures Equals(other) <==> View() == other.View()
    {
      && isTcp == other.isTcp
      && (if isTcp then tcpHost == other.tcpHost else true)
      && (if isTcp then tcpPort == other.tcpPort else true)
      && (if isTcp then true else udsFile == other.udsFile)
    }

    /** `to_string`. */
    method Render(addTcpProtocol: bool) returns (s: string)
      ensures s == Printed(View(), addTcpProtocol)
    {
      if isTcp {
        var result := if addTcpProtocol then TCP_SCHEME else "";
        s := result + tcpHost + ":" + Decimal(tcpPort);
        assert s == result + (tcpHost + ":" + Decimal(tcpPort));
        assert "" + (tcpHost + ":" + Decimal(tcpPort)) == tcpHost + ":" + Decimal(tcpPort);
      } else {
        s := UDS_SCHEME + udsFile;
      }
    }
  }

  /** `parse_host` of `AddressAtCommand`. */
  function ParseHost(address: string): Result<string> {
    match FindFirst(address, ':')
    case None => Err(RuntimeError)
    case Some(i) => if i == 0 then Err(RuntimeError) else Ok(address[..i])
  }

  /** `parse_port` of `AddressAtCommand`. */
  function ParsePort(address: string): Result<nat> {
    match FindFirst(address, ':')
    case None => Err(RuntimeError)
    case Some(i) => if i + 1 >= |address| then Err(RuntimeError) else Stoul(address[i + 1..])
  }

  lemma NamedShape(spec: string)
    requires Named(spec).Ok? && Named(spec).value.Tcp?
    ensures var p := Named(spec).value; p.host != "" && ':' !in p.host && p.port < PORT_LIMIT
  {
    FirstMeans(StripTcp(spec), ':');
  }

  /** In a scheme the first colon stands before a slash. */
  lemma NoScheme(host: string, rest: string, scheme: string)
    requires ':' !in host && rest != "" && rest[0] != '/'
    requires scheme == UDS_SCHEME || scheme == TCP_SCHEME
    ensures !StartsWith(HostColon(host, rest), scheme)
  {
    var s := HostColon(host, rest);
    var k := |scheme| - 3;
    assert scheme[k] == ':' && scheme[k + 1] == '/';
    if |host| < k {
      assert s[|host|] == ':' && scheme[|host|] != ':';
    } else if |host| == k {
      assert s[k + 1] == rest[0];
    } else {
      assert s[k] == host[k] && host[k] in host;
    }
  }

  lemma HostColonParts(host: string, rest: string)
    requires ':' !in host
    ensures var s := HostColon(host, rest);
            && FindFirst(s, ':') == Some(|host|)
            && |s| == |host| + 1 + |rest| && s[..|host|] == host && s[|host| + 1..] == rest
  {
    FirstSkips(host, ":" + rest, ':');
    assert HostColon(host, rest) == host + (":" + rest);
  }

  lemma HostAndPort(host: string, rest: string)
    requires host != "" && ':' !in host && rest != ""
    ensures HostPort(HostColon(host, rest)) == WithPort(host, Stoul(rest))
    ensures ParsePort(HostColon(host, rest)) == Stoul(rest)
  {
    HostColonParts(host, rest);
  }

  lemma ThroughScheme(s: string, addTcpProtocol: bool)
    requires !StartsWith(s, UDS_SCHEME) && !StartsWith(s, TCP_SCHEME)
    ensures Named(WithScheme(s, addTcpProtocol)) == HostPort(s)
  {
    var t := TCP_SCHEME + s;
    assert StartsWith(t, TCP_SCHEME) && t[|TCP_SCHEME|..] == s;
    assert t[0] == 't';
  }

  lemma HostAndDecimal(host: string, n: nat)
    requires host != "" && ':' !in host && n < SIZE_LIMIT
    ensures HostPort(HostColon(host, Decimal(n))) == Ok(Tcp(host, n % PORT_LIMIT))
    ensures !StartsWith(HostColon(host, Decimal(n)), UDS_SCHEME) && !StartsWith(HostColon(host, Decimal(n)), TCP_SCHEME)
  {
    DecimalDigits(n);
    StoulOfDecimal(n);
    assert '0' <= Decimal(n)[0] <= '9';
    HostAndPort(host, Decimal(n));
    NoScheme(host, Decimal(n), UDS_SCHEME);
    NoScheme(host, Decimal(n), TCP_SCHEME);
  }

  lemma PrintedTcpNamesIt(host: string, port: nat, addTcpProtocol: bool)
    requires host != "" && ':' !in host && port < PORT_LIMIT
    ensures Named(Printed(Tcp(host, port), addTcpProtocol)) == Ok(Tcp(host, port))
  {
    HostAndDecimal(host, port);
    ThroughScheme(HostColon(host, Decimal(port)), addTcpProtocol);
  }

  lemma PrintedUdsNamesIt(file: string, addTcpProtocol: bool)
    ensures Named(Printed(Uds(file), addTcpProtocol)) == Ok(Uds(file))
  {
    assert (UDS_SCHEME + file)[|UDS_SCHEME|..] == file;
  }

  /** Parsing the printed form of any accepted text, with or without the scheme, names the
      same place. */
  lemma PrintedFormNamesIt(spec: string, place: Place, addTcpProtocol: bool)
    requires Named(spec) == Ok(place)
    ensures Named(Printed(place, addTcpProtocol)) == Ok(place)
  {
    if place.Tcp? {
      NamedShape(spec);
      PrintedTcpNamesIt(place.host, place.port, addTcpProtocol);
    } else {
      PrintedUdsNamesIt(place.file, addTcpProtocol);
    }
  }

  // ---------------------------------------------------------------------------------------
  // The two parsers agree
  // ---------------------------------------------------------------------------------------

  predicate HasScheme(s: string) {
    StartsWith(s, UDS_SCHEME) || StartsWith(s, TCP_SCHEME)
  }

  /** `//...` is no number. */
  lemma SlashIsNoNumber(s: string)
    requires s != "" && s[0] == '/'
    ensures Stoul(s).Err?
  {
    assert BaseAndDigits(s) == (10, s);
    assert DigitCount(s, 10) == 0;
  }

  lemma SchemeRefused(s: string, scheme: string)
    requires StartsWith(s, scheme)
    requires scheme == UDS_SCHEME || scheme == TCP_SCHEME
    ensures ParsePort(s).Err?
  {
    var k := |scheme| - 3;
    var name := s[..k];
    assert s[..|scheme|] == scheme;
    assert s[k] == ':' && s[k + 1] == '/';
    assert forall i :: 0 <= i < k ==> s[i] == scheme[i] != ':';
    FirstMeans(s, ':');
    assert FindFirst(s, ':') == Some(k);
    SlashIsNoNumber(s[k + 1..]);
  }

  /** The two parsers accept the same scheme-free texts, and the command parser accepts no
      others; where both accept, they find the same host, and the same port modulo 2^16. */
  lemma ParsersAgree(s: string)
    ensures ParseHost(s).Ok? && ParsePort(s).Ok? <==> Named(s).Ok? && !HasScheme(s)
    ensures ParseHost(s).Ok? && ParsePort(s).Ok? ==>
              Named(s) == Ok(Tcp(ParseHost(s).value, ParsePort(s).value % PORT_LIMIT))
  {
    if StartsWith(s, UDS_SCHEME) {
      SchemeRefused(s, UDS_SCHEME);
    } else if StartsWith(s, TCP_SCHEME) {
      SchemeRefused(s, TCP_SCHEME);
    }
  }

  /** A decimal port is read in full by the command parser, and modulo 2^16 by an address. */
  lemma PortTruncated(host: string, n: nat)
    requires host != "" && ':' !in host && n < 0x1_0000_0000_0000_0000
    ensures ParsePort(HostColon(host, Decimal(n))) == Ok(n)
    ensures Named(HostColon(host, Decimal(n))) == Ok(Tcp(host, n % 0x1_0000))
  {
    HostAndDecimal(host, n);
    ThroughScheme(HostColon(host, Decimal(n)), false);
    StoulOfDecimal(n);
    HostAndPort(host, Decimal(n));
  }

  /** Which texts an address accepts: a file after the scheme, or after `tcp://` or no scheme a host
      that is not empty, the first colon and a text that begins with a number. */
  lemma NamedIff(spec: string)
    ensures Named(spec).Ok? <==>
            || StartsWith(spec, UDS_SCHEME)
            || (exists host: string, rest: string :: StripTcp(spec) == HostColon(host, rest) && host != "" && ':' !in host
                  && rest != "" && Stoul(rest).Ok?)
  {
    if !StartsWith(spec, UDS_SCHEME) {
      var address := StripTcp(spec);
      FirstMeans(address, ':');
      if HostPort(address).Ok? {
        var i := FindFirst(address, ':').value;
        assert address == HostColon(address[..i], address[i + 1..]);
      }
      if host: string, rest: string :| address == HostColon(host, rest) && host != "" && ':' !in host && rest != "" && Stoul(rest).Ok? {
        HostAndPort(host, rest);
      }
    }
  }
}
