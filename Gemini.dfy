/**
 * The response header of the Gemini protocol (section 3.1 of the Gemini
 * protocol specification, v0.16.1): `<STATUS><SPACE><META><CR><LF>`, where
 * STATUS is two digits, followed by the body. `Parse` is what a client does
 * with the bytes it receives; it is the reference against which the
 * server's writes are checked.
 */
module Gemini {

  datatype Option<T> = None | Some(value: T)

  datatype Header = Header(status: nat, meta: string)
  datatype Reply = Reply(header: Header, body: string)

  /** Status 20, SUCCESS: the meta is the MIME type of the body (section 3.2). */
  const Success: Header := Header(20, "text/gemini")
  /** Status 51, NOT FOUND (section 3.2). */
  const NotFound: Header := Header(51, "Not Found")

  predicate IsDigit(c: char) {
    '0' <= c <= '9'
  }

  function DigitValue(c: char): nat
    requires IsDigit(c)
  {
    c as int - '0' as int
  }

  function Digit(d: nat): (c: char)
    requires d < 10
    ensures IsDigit(c) && DigitValue(c) == d
  {
    ('0' as int + d) as char
  }

  /** A header that can be written on one line: a two-digit status and a meta without CR or LF. */
  predicate WellFormed(h: Header) {
    10 <= h.status <= 99 && '\r' !in h.meta && '\n' !in h.meta
  }

  function Format(h: Header): (line: string)
    requires WellFormed(h)
  {
    [Digit(h.status / 10), Digit(h.status % 10), ' '] + h.meta + "\r\n"
  }

  /** The position of the first CR LF in `s`, if any. */
  function LineEnd(s: string): (k: Option<nat>)
    ensures k.Some? ==> k.value + 1 < |s| && s[k.value] == '\r' && s[k.value + 1] == '\n'
    ensures k.Some? ==> forall i :: 0 <= i < k.value ==> !(s[i] == '\r' && s[i + 1] == '\n')
    ensures k.None? ==> forall i :: 0 <= i < |s| - 1 ==> !(s[i] == '\r' && s[i + 1] == '\n')
    decreases |s|
  {
    if |s| < 2 then None
    else if s[0] == '\r' && s[1] == '\n' then Some(0)
    else
      match LineEnd(s[1..])
      case None => None
      case Some(k) => Some(k + 1)
  }

  /** What a client reads from a response stream: the header up to the first CR LF, then the body. */
  function Parse(s: string): Option<Reply> {
    match LineEnd(s)
    case None => None
    case Some(k) =>
      var line := s[..k];
      if |line| >= 3 && IsDigit(line[0]) && IsDigit(line[1]) && line[2] == ' ' then
        Some(Reply(Header(10 * DigitValue(line[0]) + DigitValue(line[1]), line[3..]), s[k + 2..]))
      else
        None
  }

  /** A client recovers exactly the header and the body that were written. */
  lemma ParseFormat(h: Header, body: string)
    requires WellFormed(h)
    ensures Parse(Format(h) + body) == Some(Reply(h, body))
  {
    var s := Format(h) + body;
    var n := |h.meta| + 3;
    assert s[n] == '\r' && s[n + 1] == '\n';
    assert forall i :: 0 <= i < n ==> s[i] != '\r' by {
      forall i | 0 <= i < n ensures s[i] != '\r' {
        if i >= 3 { assert s[i] == h.meta[i - 3]; }
      }
    }
    assert LineEnd(s) == Some(n);
    assert s[..n][3..] == h.meta;
    assert s[n + 2..] == body;
  }
}
