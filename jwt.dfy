/**
 * The signed session token the login handler mints with `jwt.sign` and the
 * bearer gate checks with `jwt.verify`. The token layout is a stand-in for
 * the JSON Web Token format of RFC 7519: five `.`-separated decimal fields
 * (user id, the user name's character codes joined by `-`, issued-at,
 * expiry, signature), where the signature is a keyed checksum of the first
 * four fields. What the model keeps from the real library: verification
 * recomputes the signature with the server secret, rejects a token at or
 * past its `exp` second, and accepts only tokens `Sign` produced.
 */
module Jwt {

  import opened Wrappers
  import opened Text

  /** The payload `{ userId, username }` plus the `iat` and `exp` claims that
      `jwt.sign` adds. */
  datatype Claims = Claims(userId: nat, username: string, iat: nat, exp: nat)

  datatype VerifyError = Malformed | BadSignature | Expired

  /** `expiresIn: '1h'`, in seconds. */
  const EXPIRES_IN: nat := 3600

  const MAC_MODULUS: nat := 0x1_0000_0000

  // ----- the user name field -----

  function CodeFields(s: string): (fs: seq<string>)
    ensures |fs| == |s|
    ensures forall i :: 0 <= i < |s| ==> fs[i] == ShowNat(s[i] as int)
  {
    if s == [] then [] else [ShowNat(s[0] as int)] + CodeFields(s[1..])
  }

  /** The user name as its character codes joined by `-` ("" for ""). */
  function ShowCodes(s: string): string
  {
    if s == [] then "" else Join(CodeFields(s), '-')
  }

  predicate IsCharCode(n: nat)
  {
    n < 0xD800 || 0xE000 <= n < 0x11_0000
  }

  function ReadCodeList(fs: seq<string>): (r: Option<string>)
    ensures r.Some? ==> |r.value| == |fs|
  {
    if fs == [] then Some("")
    else match (ReadNat(fs[0]), ReadCodeList(fs[1..]))
      case (Some(n), Some(rest)) => if IsCharCode(n) then Some([n as char] + rest) else None
      case _ => None
  }

  function ReadCodes(field: string): Option<string>
  {
    if field == "" then Some("") else ReadCodeList(Split(field, '-'))
  }

  lemma NumeralHasNoSeparator(s: string, c: char)
    requires CanonicalNumeral(s) && !IsDigit(c)
    ensures c !in s
  {
  }

  lemma {:induction false} ReadCodeListOfCodes(s: string)
    ensures ReadCodeList(CodeFields(s)) == Some(s)
  {
    if s != [] {
      ReadCodeListOfCodes(s[1..]);
      ReadShowNat(s[0] as int);
      assert CodeFields(s)[1..] == CodeFields(s[1..]);
      assert IsCharCode(s[0] as int) && (s[0] as int) as char == s[0];
      assert [s[0]] + s[1..] == s;
    }
  }

  lemma {:induction false} CodesOfReadCodeList(fs: seq<string>)
    requires ReadCodeList(fs).Some?
    ensures CodeFields(ReadCodeList(fs).value) == fs
  {
    if fs != [] {
      CodesOfReadCodeList(fs[1..]);
      ShowReadNat(fs[0]);
      var s := ReadCodeList(fs).value;
      assert s[1..] == ReadCodeList(fs[1..]).value;
    }
  }

  lemma ReadShowCodes(s: string)
    ensures ReadCodes(ShowCodes(s)) == Some(s)
  {
    if s != [] {
      var fs := CodeFields(s);
      forall i | 0 <= i < |fs| ensures '-' !in fs[i] {
        NumeralHasNoSeparator(fs[i], '-');
      }
      SplitJoin(fs, '-');
      ReadCodeListOfCodes(s);
      assert ShowCodes(s) != "" by {
        assert |ShowCodes(s)| >= |fs[0]|;
      }
    }
  }

  lemma ShowReadCodes(field: string)
    requires ReadCodes(field).Some?
    ensures ShowCodes(ReadCodes(field).value) == field
  {
    if field != "" {
      var fs := Split(field, '-');
      CodesOfReadCodeList(fs);
      JoinSplit(field, '-');
    }
  }

  lemma ShowCodesNoSeparator(s: string, c: char)
    requires c != '-' && !IsDigit(c)
    ensures c !in ShowCodes(s)
  {
    if s != [] {
      var fs := CodeFields(s);
      forall i | 0 <= i < |fs| ensures c !in fs[i] {
        NumeralHasNoSeparator(fs[i], c);
      }
      JoinNoChar(fs, '-', c);
    }
  }

  lemma {:induction false} JoinNoChar(fs: seq<string>, sep: char, c: char)
    requires |fs| >= 1 && c != sep
    requires forall i :: 0 <= i < |fs| ==> c !in fs[i]
    ensures c !in Join(fs, sep)
  {
    if |fs| > 1 {
      JoinNoChar(fs[1..], sep, c);
    }
  }

  // ----- signing and verifying -----

  /** A keyed checksum standing in for HMAC-SHA256 (the library's default). */
  function Mac(secret: string, data: string): (m: nat)
    ensures m < MAC_MODULUS
  {
    MacFrom(secret + "." + data, 0)
  }

  function MacFrom(s: string, acc: nat): (m: nat)
    requires acc < MAC_MODULUS
    ensures m < MAC_MODULUS
  {
    if s == [] then acc else MacFrom(s[1..], (acc * 31 + (s[0] as int)) % MAC_MODULUS)
  }

  /** The four payload fields, in token order. */
  function PayloadFields(c: Claims): seq<string>
  {
    [ShowNat(c.userId), ShowCodes(c.username), ShowNat(c.iat), ShowNat(c.exp)]
  }

  /** The five token fields: the payload fields followed by their signature. */
  function TokenFields(secret: string, c: Claims): seq<string>
  {
    var payload := PayloadFields(c);
    payload + [ShowNat(Mac(secret, Join(payload, '.')))]
  }

  /** No token field contains a character other than digits and `-`. */
  lemma TokenFieldsExclude(secret: string, c: Claims, ch: char)
    requires ch != '-' && !IsDigit(ch)
    ensures forall i :: 0 <= i < 5 ==> ch !in TokenFields(secret, c)[i]
  {
    var fs := TokenFields(secret, c);
    forall i | 0 <= i < 5 ensures ch !in fs[i] {
      if i == 1 {
        ShowCodesNoSeparator(c.username, ch);
      } else {
        NumeralHasNoSeparator(fs[i], ch);
      }
    }
  }

  /** The library's signing. The token splits on `.` into exactly the payload
      fields and their signature, and contains no space, so it survives being
      sent as the second space-separated field of an `Authorization` header. */
  function Sign(secret: string, c: Claims): (token: string)
    ensures Split(token, '.') == TokenFields(secret, c)
    ensures ' ' !in token
  {
    var fs := TokenFields(secret, c);
    TokenFieldsExclude(secret, c, '.');
    TokenFieldsExclude(secret, c, ' ');
    SplitJoin(fs, '.');
    JoinNoChar(fs, '.', ' ');
    Join(fs, '.')
  }

  /** The library's verification at clock second `now`: the decoded claims,
      or the reason the token is refused. */
  function Verify(secret: string, token: string, now: nat): (r: Result<Claims, VerifyError>)
    ensures r.Ok? ==> now < r.value.exp
  {
    var fs := Split(token, '.');
    if |fs| != 5 then Err(Malformed)
    else match (ReadNat(fs[0]), ReadCodes(fs[1]), ReadNat(fs[2]), ReadNat(fs[3]))
      case (Some(userId), Some(username), Some(iat), Some(exp)) =>
        if fs[4] != ShowNat(Mac(secret, Join(fs[..4], '.'))) then Err(BadSignature)
        else if now >= exp then Err(Expired)
        else Ok(Claims(userId, username, iat, exp))
      case _ => Err(Malformed)
  }

  /** A token `Sign` made verifies to the claims it was made from until its
      expiry second, and is refused as expired from then on. */
  lemma VerifySign(secret: string, c: Claims, now: nat)
    ensures Verify(secret, Sign(secret, c), now) ==
            if now < c.exp then Ok(c) else Err(Expired)
  {
    ReadShowNat(c.userId);
    ReadShowNat(c.iat);
    ReadShowNat(c.exp);
    ReadShowCodes(c.username);
    var fs := Split(Sign(secret, c), '.');
    assert fs[..4] == PayloadFields(c);
  }

  /** Only tokens `Sign` made with the same secret verify: an accepted token is
      exactly the signature of the claims it decodes to. */
  lemma VerifySound(secret: string, token: string, now: nat)
    requires Verify(secret, token, now).Ok?
    ensures token == Sign(secret, Verify(secret, token, now).value)
  {
    var fs := Split(token, '.');
    var c := Verify(secret, token, now).value;
    ShowReadNat(fs[0]);
    ShowReadNat(fs[2]);
    ShowReadNat(fs[3]);
    ShowReadCodes(fs[1]);
    assert fs[..4] == PayloadFields(c);
    assert fs == fs[..4] + [fs[4]];
    JoinSplit(token, '.');
  }
}
