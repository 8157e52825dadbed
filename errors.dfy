/**
 * The error taxonomy of the in-memory service: the `AppError` enum, the text
 * its `Display` implementation produces, and the responder that turns an
 * error into a plain-text HTTP response.
 */
module Errors {
  import opened Http

  /**
   * `IdNotFound` carries the id that was asked for. `IO` carries the text that
   * the wrapped `std::io::Error` displays; that text comes from the standard
   * library and is kept abstract here.
   */
  datatype AppError = EmptyTitle | IdNotFound(id: nat) | Internal | IO(detail: string)

  // ---------------------------------------------------------------------------
  // Decimal formatting of an id, as `format!("{}", n)` prints it
  // ---------------------------------------------------------------------------

  predicate IsDigit(c: char) {
    '0' <= c <= '9'
  }

  function DigitChar(d: nat): (c: char)
    requires d < 10
    ensures IsDigit(c)
  {
    (48 + d) as char
  }

  function DigitValue(c: char): (d: nat)
    ensures d < 10
  {
    if IsDigit(c) then (c as int - 48) as nat else 0
  }

  /** The decimal digits of `n`, most significant first, without leading zeros. */
  function Decimal(n: nat): (r: string)
    ensures 1 <= |r|
    ensures forall i :: 0 <= i < |r| ==> IsDigit(r[i])
    ensures r[0] == '0' ==> n == 0
    decreases n
  {
    if n < 10 then [DigitChar(n)] else Decimal(n / 10) + [DigitChar(n % 10)]
  }

  /** Reads a string of decimal digits back as a number. */
  function ParseDecimal(s: string): nat
  {
    if s == [] then 0 else ParseDecimal(s[..|s| - 1]) * 10 + DigitValue(s[|s| - 1])
  }

  /** Parsing the printed form of a number gives that number back. */
  lemma {:induction false} ParseDecimalOfDecimal(n: nat)
    ensures ParseDecimal(Decimal(n)) == n
    decreases n
  {
    if n >= 10 {
      var s := Decimal(n);
      var init := Decimal(n / 10);
      assert s == init + [DigitChar(n % 10)];
      assert s[..|s| - 1] == init;
      ParseDecimalOfDecimal(n / 10);
    }
  }

  /** Two different ids are never printed alike. */
  lemma DecimalInjective(a: nat, b: nat)
    ensures Decimal(a) == Decimal(b) <==> a == b
  {
    ParseDecimalOfDecimal(a);
    ParseDecimalOfDecimal(b);
  }

  // ---------------------------------------------------------------------------
  // Display
  // ---------------------------------------------------------------------------

  const EmptyTitleMessage: string := "`title` field of `Task` cannot be empty!"
  const InternalMessage: string := "Internal server error!"
  const IdNotFoundSuffix: string := "` id not found!"

  /**
   * The text of each variant's `#[error(...)]` format string. Only the variant
   * that wraps foreign I/O text can produce anything but ASCII.
   */
  function Message(e: AppError): (m: string)
    ensures !e.IO? ==> IsAscii(m)
    ensures e.IO? ==> |m| == |e.detail| + 2 && m[0] == m[|m| - 1] == '`'
  {
    match e
    case EmptyTitle => EmptyTitleMessage
    case IdNotFound(n) =>
      AsciiConcat("`", Decimal(n));
      AsciiConcat("`" + Decimal(n), IdNotFoundSuffix);
      "`" + Decimal(n) + IdNotFoundSuffix
    case Internal => InternalMessage
    case IO(detail) => "`" + detail + "`"
  }

  /** The message of `IdNotFound(n)` spells out `n` and nothing else varies. */
  lemma IdNotFoundMessageShape(n: nat)
    ensures var m := Message(IdNotFound(n));
            |m| == |Decimal(n)| + 16 && m[0] == '`' && m[1..|m| - 15] == Decimal(n) &&
            m[|m| - 15..] == IdNotFoundSuffix
  {
  }

  /**
   * Recovers the error from its message: the inverse of `Message`, used to show
   * that the plain-text body identifies the error.
   */
  function ParseMessage(m: string): AppError
  {
    if m == EmptyTitleMessage then EmptyTitle
    else if m == InternalMessage then Internal
    else if 2 <= |m| && m[|m| - 1] == '`' then IO(m[1..|m| - 1])
    else if 16 <= |m| then IdNotFound(ParseDecimal(m[1..|m| - 15]))
    else Internal
  }

  lemma {:induction false} ParseMessageOfMessage(e: AppError)
    ensures ParseMessage(Message(e)) == e
  {
    var m := Message(e);
    match e
    case EmptyTitle =>
    case Internal =>
      assert |InternalMessage| != |EmptyTitleMessage|;
    case IO(d) =>
      assert m[|m| - 1] != EmptyTitleMessage[|EmptyTitleMessage| - 1];
      assert m[|m| - 1] != InternalMessage[|InternalMessage| - 1];
      assert m[1..|m| - 1] == d;
    case IdNotFound(n) =>
      assert IsDigit(m[1]) && !IsDigit(EmptyTitleMessage[1]);
      assert m[0] != InternalMessage[0];
      IdNotFoundMessageShape(n);
      ParseDecimalOfDecimal(n);
  }

  /** Different errors never produce the same message. */
  lemma MessageInjective(e1: AppError, e2: AppError)
    ensures Message(e1) == Message(e2) <==> e1 == e2
  {
    ParseMessageOfMessage(e1);
    ParseMessageOfMessage(e2);
  }

  // ---------------------------------------------------------------------------
  // Status mapping and the responder
  // ---------------------------------------------------------------------------

  /** The status `respond_to` chooses for each variant. */
  function StatusOf(e: AppError): (code: nat)
    ensures IsClientError(code) <==> e.EmptyTitle? || e.IdNotFound?
    ensures IsServerError(code) <==> e.Internal? || e.IO?
  {
    match e
    case EmptyTitle => UnprocessableEntity
    case IdNotFound(_) => NotFound
    case Internal => InternalServerError
    case IO(_) => InternalServerError
  }

  /** Each status code picks out exactly the variants the responder maps to it. */
  lemma StatusCodes(e: AppError)
    ensures StatusOf(e) == 422 <==> e.EmptyTitle?
    ensures StatusOf(e) == 404 <==> e.IdNotFound?
    ensures StatusOf(e) == 500 <==> e.Internal? || e.IO?
  {
  }

  /**
   * The status of `IdNotFound` does not depend on the id, and the client error
   * for an empty title is a different one.
   */
  lemma NotFoundStatusIgnoresId(a: nat, b: nat)
    ensures StatusOf(IdNotFound(a)) == StatusOf(IdNotFound(b)) == NotFound
    ensures StatusOf(EmptyTitle) != StatusOf(IdNotFound(a))
  {
  }

  /** Number of bytes of the UTF-8 encoding of `c`. */
  function Utf8Width(c: char): nat
  {
    if c as int < 0x80 then 1
    else if c as int < 0x800 then 2
    else if c as int < 0x1_0000 then 3
    else 4
  }

  /** `String::len()`: the length of the UTF-8 encoding, in bytes. */
  function Utf8Length(s: string): (n: nat)
    ensures |s| <= n <= 4 * |s|
  {
    if s == [] then 0 else Utf8Width(s[0]) + Utf8Length(s[1..])
  }

  predicate IsAscii(s: string) {
    forall i :: 0 <= i < |s| ==> s[i] as int < 0x80
  }

  /** Joining two ASCII strings gives an ASCII string. */
  lemma AsciiConcat(a: string, b: string)
    requires IsAscii(a) && IsAscii(b)
    ensures IsAscii(a + b)
  {
    forall i | 0 <= i < |a + b| ensures (a + b)[i] as int < 0x80 {
      if i >= |a| {
        assert (a + b)[i] == b[i - |a|];
      }
    }
  }

  /** On ASCII text the byte length and the character count agree. */
  lemma {:induction false} AsciiUtf8Length(s: string)
    requires IsAscii(s)
    ensures Utf8Length(s) == |s|
  {
    if s != [] {
      assert IsAscii(s[1..]) by {
        forall i | 0 <= i < |s| - 1 ensures s[1..][i] as int < 0x80 {
          assert s[1..][i] == s[i + 1];
        }
      }
      AsciiUtf8Length(s[1..]);
    }
  }

  /** What `Response::build()` is given: a sized body, a content type, a status. */
  datatype Response = Response(status: nat, contentType: string, declaredSize: nat, body: string)

  /**
   * `respond_to`: the body is the Display text, the declared size is its byte
   * length, the content type is plain text and the status is the variant's.
   */
  function RespondTo(e: AppError): (r: Response)
    ensures r.status == StatusOf(e) && r.body == Message(e)
    ensures r.declaredSize == Utf8Length(r.body) && r.contentType == TextPlain
    ensures e.IdNotFound? ==> r.status == NotFound && r.body[1..|r.body| - 15] == Decimal(e.id)
  {
    var body := Message(e);
    Response(StatusOf(e), TextPlain, Utf8Length(body), body)
  }

  /**
   * Every message except the one that wraps foreign I/O text is ASCII, so its
   * declared size is its length in characters.
   */
  lemma DeclaredSizeIsLength(e: AppError)
    requires !e.IO?
    ensures RespondTo(e).declaredSize == |Message(e)|
  {
    AsciiUtf8Length(Message(e));
  }
}
