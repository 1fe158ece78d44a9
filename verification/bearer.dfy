/** The book service's `authenticateToken` middleware: the session token is the
    second space-separated word of the `Authorization` header; a request
    without one is turned away with 401, one whose token does not verify with
    403, and only otherwise does the route handler run. */
module BearerToken {
  import opened Common

  const MissingToken: string := "Akses ditolak: Butuh Token"
  const InvalidToken: string := "Token tidak valid"

  /** `s.split(sep)` as JavaScript defines it for a one-character separator:
      the pieces between separators, empty pieces included, so that joining
      them back with `sep` gives `s` again. */
  function Split(s: string, sep: char): (parts: seq<string>)
    ensures |parts| >= 1
    ensures forall i :: 0 <= i < |parts| ==> sep !in parts[i]
    ensures Join(parts, sep) == s
    ensures |parts| == 1 <==> sep !in s
  {
    if s == [] then [[]]
    else
      var rest := Split(s[1..], sep);
      if s[0] == sep then [[]] + rest
      else [[s[0]] + rest[0]] + rest[1..]
  }

  /** `parts.join(sep)`. */
  function Join(parts: seq<string>, sep: char): string
    requires |parts| >= 1
  {
    if |parts| == 1 then parts[0] else parts[0] + [sep] + Join(parts[1..], sep)
  }

  /** A word without `sep` in front of a separator is split off as the first piece. */
  lemma {:induction false} SplitAfterWord(w: string, sep: char, t: string)
    requires sep !in w
    ensures Split(w + [sep] + t, sep) == [w] + Split(t, sep)
  {
    if w == [] {
      assert w + [sep] + t == [sep] + t;
    } else {
      var s := w + [sep] + t;
      assert s[0] == w[0] && s[1..] == w[1..] + [sep] + t;
      SplitAfterWord(w[1..], sep, t);
      var rest := Split(s[1..], sep);
      assert rest == [w[1..]] + Split(t, sep);
      assert rest[0] == w[1..] && rest[1..] == Split(t, sep);
      assert [w[0]] + w[1..] == w;
    }
  }

  /** Split undoes Join whenever no piece contains the separator. */
  lemma {:induction false} SplitOfJoin(parts: seq<string>, sep: char)
    requires |parts| >= 1
    requires forall i :: 0 <= i < |parts| ==> sep !in parts[i]
    ensures Split(Join(parts, sep), sep) == parts
  {
    if |parts| > 1 {
      SplitOfJoin(parts[1..], sep);
      SplitAfterWord(parts[0], sep, Join(parts[1..], sep));
      assert [parts[0]] + parts[1..] == parts;
    }
  }

  /** The longest prefix of `s` that holds no `sep`. */
  function TakeWord(s: string, sep: char): (w: string)
    ensures sep !in w && w <= s
    ensures w == s || s[|w|] == sep
  {
    if s == [] || s[0] == sep then [] else [s[0]] + TakeWord(s[1..], sep)
  }

  /** The word right after the first `sep` of `s`, if `s` holds a `sep`. */
  function WordAfterFirst(s: string, sep: char): (r: Option<string>)
    ensures r.None? <==> sep !in s
  {
    if s == [] then None
    else if s[0] == sep then Some(TakeWord(s[1..], sep))
    else WordAfterFirst(s[1..], sep)
  }

  /** A reference reading of "the second space-separated word", written
      without splitting: the non-empty word after the first space. */
  function SecondWord(header: string): Option<string>
  {
    match WordAfterFirst(header, ' ')
    case None => None
    case Some(w) => if w == [] then None else Some(w)
  }

  /** `authHeader && authHeader.split(' ')[1]`, read as a truth value: an
      absent or empty header, a header with no second piece, and an empty
      second piece all leave the request without a token. */
  function ExtractToken(authorization: Option<string>): (token: Option<string>)
    ensures token.Some? ==> authorization.Some? && token.value != [] && ' ' !in token.value
    ensures authorization.Some? && ' ' !in authorization.value ==> token.None?
  {
    match authorization
    case None => None
    case Some(header) =>
      if header == [] then None
      else
        var parts := Split(header, ' ');
        if |parts| < 2 || parts[1] == [] then None else Some(parts[1])
  }

  lemma {:induction false} SplitHeadIsTakeWord(s: string, sep: char)
    ensures Split(s, sep)[0] == TakeWord(s, sep)
  {
    if s != [] && s[0] != sep {
      SplitHeadIsTakeWord(s[1..], sep);
    }
  }

  lemma {:induction false} SplitSecondIsWordAfterFirst(s: string, sep: char)
    requires sep in s
    ensures |Split(s, sep)| >= 2 && Split(s, sep)[1] == WordAfterFirst(s, sep).value
  {
    if s[0] == sep {
      SplitHeadIsTakeWord(s[1..], sep);
    } else {
      assert sep in s[1..] by {
        var i :| 0 <= i < |s| && s[i] == sep;
        assert s[1..][i - 1] == sep;
      }
      SplitSecondIsWordAfterFirst(s[1..], sep);
    }
  }

  /** The token is exactly the second space-separated word of the header. */
  lemma TokenIsSecondWord(header: string)
    ensures ExtractToken(Some(header)) == SecondWord(header)
  {
    if ' ' in header {
      SplitSecondIsWordAfterFirst(header, ' ');
    }
  }

  /** A well-formed `<scheme> <token>` header, possibly followed by more
      space-separated words, yields its token. */
  lemma BearerHeaderYieldsToken(scheme: string, token: string, rest: string)
    requires ' ' !in scheme && ' ' !in token && token != []
    requires rest == [] || rest[0] == ' '
    ensures ExtractToken(Some(scheme + [' '] + token + rest)) == Some(token)
  {
    var header := scheme + [' '] + token + rest;
    assert header == scheme + [' '] + (token + rest);
    SplitAfterWord(scheme, ' ', token + rest);
    var tail := Split(token + rest, ' ');
    assert Split(header, ' ') == [scheme] + tail;
    assert tail[0] == token by {
      if rest != [] {
        assert token + rest == token + [' '] + rest[1..];
        SplitAfterWord(token, ' ', rest[1..]);
      } else {
        assert token + rest == token;
      }
    }
    assert Split(header, ' ')[1] == token;
  }

  /** What the middleware decides before a protected route handler runs. */
  datatype Auth = Authorized(user: Claims) | Denied(status: int, message: string)

  /** `authenticateToken`, with `jwt.verify` (signature and expiry check under
      the service's secret) passed in as an opaque function. */
  function Authenticate(authorization: Option<string>, verify: string -> Option<Claims>): (r: Auth)
    ensures r == Denied(401, MissingToken) <==> ExtractToken(authorization).None?
    ensures r == Denied(403, InvalidToken) <==>
      ExtractToken(authorization).Some? && verify(ExtractToken(authorization).value).None?
    ensures r.Authorized? ==>
      ExtractToken(authorization).Some? && verify(ExtractToken(authorization).value) == Some(r.user)
  {
    match ExtractToken(authorization)
    case None => Denied(401, MissingToken)
    case Some(token) =>
      match verify(token)
      case None => Denied(403, InvalidToken)
      case Some(user) => Authorized(user)
  }
}
