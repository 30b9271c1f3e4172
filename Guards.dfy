/** The input checks the handlers run before touching the database: the
    create-code amount, the register and PIN-setup body fields, and the
    `Authorization: Bearer <token>` header of requireAuth. */
module Guards {

  datatype Option<T> = None | Some(value: T)

  /** A field of a parsed JSON request body, or `undefined` when the field
      is absent. Numbers are integers in minor units. */
  datatype BodyValue =
    | Undefined
    | Null
    | Bool(b: bool)
    | Num(n: int)
    | Str(s: string)
    | Arr(items: seq<BodyValue>)
    | Obj

  /** JavaScript truthiness, as tested by `!value`: false exactly for
      undefined, null, false, 0 and the empty string. */
  predicate Truthy(v: BodyValue): (t: bool)
    ensures !t <==> v in {Undefined, Null, Bool(false), Num(0), Str("")}
  {
    match v
    case Undefined => false
    case Null => false
    case Bool(b) => b
    case Num(n) => n != 0
    case Str(s) => s != ""
    case Arr(_) => true
    case Obj => true
  }

  /** The number of UTF-16 code units JavaScript stores for `s`: one per
      character up to U+FFFF, two (a surrogate pair) above it. */
  function Utf16Length(s: string): (n: nat)
    ensures |s| <= n <= 2 * |s|
    ensures (forall i :: 0 <= i < |s| ==> s[i] as int <= 0xFFFF) ==> n == |s|
  {
    if s == [] then 0
    else (if s[0] as int <= 0xFFFF then 1 else 2) + Utf16Length(s[1..])
  }

  /** `value.length`: the UTF-16 length of a string, the element count of an
      array, `undefined` (None) for every other value. */
  function Length(v: BodyValue): (r: Option<nat>)
    ensures r.Some? <==> v.Str? || v.Arr?
    ensures v.Arr? ==> r == Some(|v.items|)
    ensures v.Str? ==> r == Some(Utf16Length(v.s))
  {
    match v
    case Str(s) => Some(Utf16Length(s))
    case Arr(items) => Some(|items|)
    case _ => None
  }

  /** create-code: the amount must be a number greater than zero; anything
      else is answered 400 'valid amount required'. */
  function ValidAmount(amount: BodyValue): (r: Option<int>)
    ensures r.Some? <==> amount.Num? && amount.n > 0
    ensures r.Some? ==> r.value == amount.n && r.value > 0
  {
    if amount.Num? && amount.n > 0 then Some(amount.n) else None
  }

  /** register: email and password must be truthy and the password's length
      must not be below 6. `undefined < 6` is false in JavaScript, so a
      truthy value without a length passes this check. */
  function RegisterInputOk(email: BodyValue, password: BodyValue): (ok: bool)
    ensures ok ==> Truthy(email) && Truthy(password)
    ensures ok ==> Length(password).None? || Length(password).value >= 6
    ensures email.Str? && password.Str? ==>
      (ok <==> email.s != "" && Utf16Length(password.s) >= 6)
    ensures Truthy(email) && password.Num? && password.n != 0 ==> ok
  {
    !(!Truthy(email) || !Truthy(password) || (Length(password).Some? && Length(password).value < 6))
  }

  /** set-payment-pin: email and pin must be truthy and the pin's length
      exactly 4. `undefined !== 4`, so a pin that is not a string or array
      is always refused. */
  function PinInputOk(email: BodyValue, pin: BodyValue): (ok: bool)
    ensures ok <==> Truthy(email) && Length(pin) == Some(4)
    ensures email.Str? && pin.Str? ==> (ok <==> email.s != "" && Utf16Length(pin.s) == 4)
  {
    !(!Truthy(email) || !Truthy(pin) || Length(pin) != Some(4))
  }

  /** `s.split(sep)`: the pieces between separators, in order. */
  function Split(s: string, sep: char): (parts: seq<string>)
    ensures |parts| >= 1
    ensures forall i :: 0 <= i < |parts| ==> sep !in parts[i]
    ensures |parts[0]| <= |s| && parts[0] == s[..|parts[0]|]
    ensures |parts[0]| == |s| || s[|parts[0]|] == sep
    ensures Join(parts, sep) == s
  {
    if s == [] then [""]
    else
      var rest := Split(s[1..], sep);
      if s[0] == sep then [""] + rest
      else [[s[0]] + rest[0]] + rest[1..]
  }

  /** `parts.join(sep)`, the inverse of Split. */
  function Join(parts: seq<string>, sep: char): (s: string)
    requires |parts| >= 1
  {
    if |parts| == 1 then parts[0] else parts[0] + [sep] + Join(parts[1..], sep)
  }

  /** Splitting after a first piece without separators yields that piece,
      then the pieces of the rest. */
  lemma {:induction false} SplitAfter(w: string, rest: string, sep: char)
    requires sep !in w
    ensures Split(w + [sep] + rest, sep) == [w] + Split(rest, sep)
  {
    if w == [] {
      assert w + [sep] + rest == [sep] + rest;
      assert ([sep] + rest)[1..] == rest;
    } else {
      assert (w + [sep] + rest)[1..] == w[1..] + [sep] + rest;
      SplitAfter(w[1..], rest, sep);
      assert [w[0]] + w[1..] == w;
    }
  }

  /** Two characters above U+FFFF make a PIN of JavaScript length 4, which
      the PIN check accepts. */
  lemma TwoAstralCharsMakeAPin(email: string, a: char, b: char)
    requires email != "" && a as int > 0xFFFF && b as int > 0xFFFF
    ensures PinInputOk(Str(email), Str([a, b]))
  {
    assert [a, b][1..] == [b];
    assert [b][1..] == [];
    assert Utf16Length([b]) == 2 + Utf16Length([]);
    assert Utf16Length([a, b]) == 2 + Utf16Length([b]);
  }

  const BearerPrefix: string := "Bearer "

  /** requireAuth's header parsing: with no header, or one not starting with
      "Bearer ", there is no token (401 'missing auth token'); otherwise the
      token is `header.split(' ')[1]`, the text after "Bearer " up to the
      next space. */
  function BearerToken(header: Option<string>): (token: Option<string>)
    ensures token.Some? <==> header.Some? && BearerPrefix <= header.value
    ensures token.Some? ==>
      var rest := header.value[|BearerPrefix|..];
      ' ' !in token.value &&
      token.value <= rest &&
      (|token.value| == |rest| || rest[|token.value|] == ' ')
  {
    if header.None? || !(BearerPrefix <= header.value) then None
    else
      var h := header.value;
      SplitAfter("Bearer", h[|BearerPrefix|..], ' ');
      assert h == "Bearer" + [' '] + h[|BearerPrefix|..];
      Some(Split(h, ' ')[1])
  }

  datatype AuthError = MissingToken | InvalidToken

  datatype Auth<P> = Authorized(principal: P) | Refused(error: AuthError)

  /** requireAuth: the token is handed to the signature check `verify`
      (jwt.verify, outside this model); a token it refuses is answered 401
      'invalid or expired token', one it accepts yields the principal. */
  function RequireAuth<P>(header: Option<string>, verify: string -> Option<P>): (r: Auth<P>)
    ensures BearerToken(header).None? ==> r == Refused(MissingToken)
    ensures BearerToken(header).Some? ==>
      (r.Authorized? <==> verify(BearerToken(header).value).Some?)
    ensures r.Authorized? ==> verify(BearerToken(header).value) == Some(r.principal)
    ensures r.Refused? && BearerToken(header).Some? ==> r.error == InvalidToken
  {
    match BearerToken(header)
    case None => Refused(MissingToken)
    case Some(token) =>
      match verify(token)
      case None => Refused(InvalidToken)
      case Some(p) => Authorized(p)
  }
}
