/**
 * The RESP 2 reply encodings and `RespReplyBuilder`, an append-only byte
 * string that serialises one reply value per call.
 */
module RespReply {
  import opened Decimal

  const CRLF: seq<char> := "\r\n"

  /** `+OK\r\n` */
  const OkReply: seq<char> := "+OK\r\n"

  /** `$-1\r\n` */
  const NilReply: seq<char> := "$-1\r\n"

  /** A one-byte type marker, the text, and the terminator. */
  function Framed(kind: char, text: seq<char>): seq<char> {
    [kind] + text + CRLF
  }

  /** `+<text>\r\n`: the text sits between the marker and the terminator. */
  function SimpleString(s: seq<char>): (r: seq<char>)
    ensures |r| == |s| + 3 && r[0] == '+' && r[1..|r| - 2] == s && r[|r| - 2..] == CRLF
  {
    FramedParts('+', s);
    Framed('+', s)
  }

  /** `-<message>\r\n`. */
  function ErrorReply(s: seq<char>): (r: seq<char>)
    ensures |r| == |s| + 3 && r[0] == '-' && r[1..|r| - 2] == s && r[|r| - 2..] == CRLF
  {
    FramedParts('-', s);
    Framed('-', s)
  }

  /** `:<n>\r\n`, with `n` as `std::to_string` writes it. */
  function Integer(n: int): (r: seq<char>)
    ensures |r| == |IntToString(n)| + 3 && r[0] == ':' && r[1..|r| - 2] == IntToString(n) && r[|r| - 2..] == CRLF
  {
    FramedParts(':', IntToString(n));
    Framed(':', IntToString(n))
  }

  /** `*<n>\r\n`: the header of an array of `n` elements. */
  function ArrayHeader(n: int): (r: seq<char>)
    ensures |r| == |IntToString(n)| + 3 && r[0] == '*' && r[1..|r| - 2] == IntToString(n) && r[|r| - 2..] == CRLF
  {
    FramedParts('*', IntToString(n));
    Framed('*', IntToString(n))
  }

  /** `$<len>\r\n<bytes>\r\n`: the length line, then the raw bytes. */
  function BulkString(s: seq<char>): seq<char> {
    Framed('$', NatToString(|s|)) + s + CRLF
  }

  /** The range of a C++ `long long`. */
  predicate IsLongLong(n: int) {
    -0x8000_0000_0000_0000 <= n < 0x8000_0000_0000_0000
  }

  /** Where the marker, the text and the terminator sit in a framed line. */
  lemma {:induction false} FramedParts(kind: char, text: seq<char>)
    ensures var r := Framed(kind, text);
      && |r| == |text| + 3 && r[0] == kind
      && r[1..|r| - 2] == text && r[|r| - 2..] == CRLF
  {
    var r := Framed(kind, text);
    assert r == [kind] + text + CRLF;
    assert r[1..|r| - 2] == text;
  }

  /** An integer reply is ':', a '-' exactly when the number is negative,
      then the canonical digits of its magnitude, then CRLF. */
  lemma {:induction false} IntegerShape(n: int)
    ensures |Integer(n)| >= 4 && Integer(n)[0] == ':'
    ensures Integer(n)[|Integer(n)| - 2..] == CRLF
    ensures n < 0 <==> Integer(n)[1] == '-'
    ensures var start := if n < 0 then 2 else 1;
      var digits := Integer(n)[start..|Integer(n)| - 2];
      && AllDigits(digits) && |digits| > 0 && Value(digits) == (if n < 0 then -n else n)
      && (digits[0] == '0' ==> digits == "0")
  {
    var text := IntToString(n);
    var r := Integer(n);
    FramedParts(':', text);
    var body := r[1..|r| - 2];
    assert body == text;
    assert r[1] == body[0];
    if n < 0 {
      assert r[2..|r| - 2] == body[1..] == Magnitude(text);
    } else {
      assert body == Magnitude(text);
    }
  }

  /** A bulk string carries any bytes, CR and LF included: the payload is
      found at a fixed offset from the header, and the header states its length. */
  lemma {:induction false} BulkStringShape(s: seq<char>)
    ensures var h := 1 + |NatToString(|s|)| + 2;
      && var r := BulkString(s);
      && |r| == h + |s| + 2
      && r[..h] == Framed('$', NatToString(|s|))
      && r[h..h + |s|] == s
      && r[h + |s|..] == CRLF
      && Value(r[1..h - 2]) == |s|
  {
    var h := 1 + |NatToString(|s|)| + 2;
    var r := BulkString(s);
    assert r == Framed('$', NatToString(|s|)) + s + CRLF;
    assert r[1..h - 2] == NatToString(|s|);
  }

  /**
   * `RespReplyBuilder`: every appender adds one encoded value after what is
   * already there; nothing is ever removed or rewritten.
   */
  class ReplyBuilder {
    var buffer: seq<char>

    constructor ()
      ensures buffer == []
    {
      buffer := [];
    }

    function Data(): seq<char>
      reads this
    {
      buffer
    }

    method AppendOk()
      modifies this
      ensures buffer == old(buffer) + "+OK\r\n"
    {
      buffer := buffer + OkReply;
    }

    method AppendSimpleString(s: seq<char>)
      modifies this
      ensures buffer == old(buffer) + ['+'] + s + "\r\n"
    {
      AppendString('+', s);
    }

    method AppendError(err: seq<char>)
      modifies this
      ensures buffer == old(buffer) + ['-'] + err + "\r\n"
    {
      AppendString('-', err);
    }

    method AppendInteger(n: int)
      requires IsLongLong(n)
      modifies this
      ensures buffer == old(buffer) + Integer(n)
    {
      AppendString(':', IntToString(n));
    }

    method AppendBulkString(s: seq<char>)
      modifies this
      ensures buffer == old(buffer) + ['$'] + NatToString(|s|) + "\r\n" + s + "\r\n"
    {
      var len := NatToString(|s|);
      var reply: seq<char> := ['$'];
      reply := reply + len;
      reply := reply + CRLF;
      reply := reply + s;
      reply := reply + CRLF;
      buffer := buffer + reply;
    }

    method AppendNil()
      modifies this
      ensures buffer == old(buffer) + "$-1\r\n"
    {
      buffer := buffer + NilReply;
    }

    /** Only the header of an array; its elements are appended separately. */
    method AppendArray(size: int)
      requires IsLongLong(size)
      modifies this
      ensures buffer == old(buffer) + ArrayHeader(size)
    {
      AppendString('*', IntToString(size));
    }

    method AppendString(kind: char, s: seq<char>)
      modifies this
      ensures buffer == old(buffer) + Framed(kind, s)
    {
      var reply: seq<char> := [kind];
      reply := reply + s;
      reply := reply + CRLF;
      buffer := buffer + reply;
    }
  }
}
