/** What a resource hands back to the worker: a body or an error code, and the
    `href` strings that point at a client or an account. HTTP status codes are not
    modelled; an error reply carries only its error code. */
module Responses {
  import opened Errors

  datatype Body =
    | NoBody
    | ClientBody(id: int, name: string, href: string)
    | AccountBody(id: int, clientId: int, currency: string, amount: int, href: string)

  datatype Response = Success(body: Body) | ErrorReply(error: Error)

  // ---------------------------------------------------------------------------
  // Decimal rendering of a Java int, as string concatenation does it.

  predicate IsDigit(c: char) { '0' <= c <= '9' }

  predicate AllDigits(s: string)
  {
    forall i :: 0 <= i < |s| ==> IsDigit(s[i])
  }

  function DigitChar(d: nat): (c: char)
    requires d < 10
    ensures IsDigit(c) && c as int - '0' as int == d
  {
    ['0', '1', '2', '3', '4', '5', '6', '7', '8', '9'][d]
  }

  /** The decimal digits of `n`, without leading zeros. */
  function NatString(n: nat): (s: string)
    ensures |s| >= 1 && AllDigits(s)
    decreases n
  {
    if n < 10 then [DigitChar(n)] else NatString(n / 10) + [DigitChar(n % 10)]
  }

  /** `String.valueOf(n)`: a minus sign for negatives, then the digits. */
  function IntString(n: int): (s: string)
    ensures |s| >= 1
    ensures forall i :: 0 <= i < |s| ==> IsDigit(s[i]) || s[i] == '-'
  {
    if n < 0 then "-" + NatString(-n) else NatString(n)
  }

  /** The value of a string of decimal digits. */
  function ParseNat(s: string): nat
    requires AllDigits(s)
  {
    if |s| == 0 then 0 else ParseNat(s[..|s| - 1]) * 10 + (s[|s| - 1] as int - '0' as int)
  }

  /** Reads back what `IntString` writes. */
  function ParseInt(s: string): Option<int>
  {
    if |s| >= 2 && s[0] == '-' && AllDigits(s[1..]) then Some(-(ParseNat(s[1..]) as int))
    else if |s| >= 1 && AllDigits(s) then Some(ParseNat(s))
    else None
  }

  lemma {:induction false} NatStringRoundTrip(n: nat)
    ensures ParseNat(NatString(n)) == n
    decreases n
  {
    if n >= 10 {
      var s := NatString(n);
      NatStringRoundTrip(n / 10);
      assert s[..|s| - 1] == NatString(n / 10);
    }
  }

  /** Printing an `int` and reading it back gives the same number. */
  lemma IntStringRoundTrip(n: int)
    ensures ParseInt(IntString(n)) == Some(n)
  {
    if n < 0 {
      NatStringRoundTrip(-n);
      assert IntString(n)[1..] == NatString(-n);
    } else {
      NatStringRoundTrip(n);
    }
  }

  // ---------------------------------------------------------------------------
  // Resource links.

  const ResourceName: string := "clients"

  /** `makeHref(clientId, accountId)`: "/clients/<clientId>", followed by
      "/account/<accountId>" when an account id is given. */
  function MakeHref(clientId: int, accountId: Option<int>): (s: string)
    ensures accountId.None? ==> s == "/clients/" + IntString(clientId)
    ensures accountId.Some? ==> s == "/clients/" + IntString(clientId) + "/account/" + IntString(accountId.value)
  {
    var base := "/" + ResourceName + "/";
    assert base == "/clients/";
    var href := base + IntString(clientId);
    if accountId.Some? then href + "/account/" + IntString(accountId.value) else href
  }

  /** Position of the first '/' in `s`, or `|s|` if there is none. */
  function FirstSlash(s: string): (i: nat)
    ensures i <= |s|
    ensures i < |s| ==> s[i] == '/'
    ensures forall j :: 0 <= j < i ==> s[j] != '/'
  {
    if |s| == 0 then 0
    else if s[0] == '/' then 0
    else 1 + FirstSlash(s[1..])
  }

  /** `s` without the leading `prefix`, if it starts with it. */
  function StripPrefix(prefix: string, s: string): (r: Option<string>)
    ensures r.Some? ==> s == prefix + r.value
  {
    if |prefix| <= |s| && s[..|prefix|] == prefix then Some(s[|prefix|..]) else None
  }

  lemma StripPrefixOf(prefix: string, t: string)
    ensures StripPrefix(prefix, prefix + t) == Some(t)
  {
  }

  /** The route a request path selects: the client id and, for an account path,
      the account id. */
  function ParseHref(s: string): Option<(int, Option<int>)>
  {
    match StripPrefix("/clients/", s)
    case None => None
    case Some(rest) =>
      var i := FirstSlash(rest);
      match ParseInt(rest[..i])
      case None => None
      case Some(clientId) =>
        if i == |rest| then Some((clientId, None))
        else
          match StripPrefix("/account/", rest[i..])
          case None => None
          case Some(tail) =>
            match ParseInt(tail)
            case None => None
            case Some(accountId) => Some((clientId, Some(accountId)))
  }

  lemma {:induction false} FirstSlashAfter(x: string, y: string)
    requires forall i :: 0 <= i < |x| ==> x[i] != '/'
    requires |y| >= 1 && y[0] == '/'
    ensures FirstSlash(x + y) == |x|
    decreases |x|
  {
    if |x| > 0 {
      assert (x + y)[1..] == x[1..] + y;
      FirstSlashAfter(x[1..], y);
    }
  }

  lemma FirstSlashNone(x: string)
    requires forall i :: 0 <= i < |x| ==> x[i] != '/'
    ensures FirstSlash(x) == |x|
    decreases |x|
  {
  }

  /** The route of a client path whose id text has no slash. */
  lemma ParseClientPath(c: string, clientId: int)
    requires forall i :: 0 <= i < |c| ==> c[i] != '/'
    requires ParseInt(c) == Some(clientId)
    ensures ParseHref("/clients/" + c) == Some((clientId, None))
  {
    StripPrefixOf("/clients/", c);
    FirstSlashNone(c);
    assert c[..|c|] == c;
  }

  /** The route of an account path whose client id text has no slash. */
  lemma ParseAccountPath(c: string, a: string, clientId: int, accountId: int)
    requires forall i :: 0 <= i < |c| ==> c[i] != '/'
    requires ParseInt(c) == Some(clientId) && ParseInt(a) == Some(accountId)
    ensures ParseHref("/clients/" + (c + ("/account/" + a))) == Some((clientId, Some(accountId)))
  {
    var rest := c + ("/account/" + a);
    StripPrefixOf("/clients/", rest);
    FirstSlashAfter(c, "/account/" + a);
    assert rest[..|c|] == c;
    assert rest[|c|..] == "/account/" + a;
    StripPrefixOf("/account/", a);
  }

  /** A link the server hands out routes back to the same client and account:
      following an `href` reaches the resource it was made for. */
  lemma HrefRoundTrip(clientId: int, accountId: Option<int>)
    ensures ParseHref(MakeHref(clientId, accountId)) == Some((clientId, accountId))
  {
    var c := IntString(clientId);
    IntStringRoundTrip(clientId);
    if accountId.Some? {
      var a := IntString(accountId.value);
      IntStringRoundTrip(accountId.value);
      assert MakeHref(clientId, accountId) == "/clients/" + (c + ("/account/" + a));
      ParseAccountPath(c, a, clientId, accountId.value);
    } else {
      assert MakeHref(clientId, accountId) == "/clients/" + c;
      ParseClientPath(c, clientId);
    }
  }
}
