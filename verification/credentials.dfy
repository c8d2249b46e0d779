/** The Credential Extractor of the Basic-auth middleware: picking the
    encoded token out of the `Authorization` header and splitting the
    decoded text into an email address and a password. */
module Credentials {
  import opened JsString

  /** `credentials.split(' ')[1]`: the second space-separated token of the
      header, `undefined` when the header holds no space. The first token,
      the scheme name, is never looked at. */
  function EncodedCredentials(header: string): (token: Option<string>)
    ensures token.Some? <==> ' ' in header
    ensures token.Some? ==> ' ' !in token.value
  {
    SplitHasSecondPart(header, ' ');
    At(Split(header, ' '), 1)
  }

  /** The token is exactly the run of characters after the first space and
      up to the next space or the end of the header. */
  lemma EncodedCredentialsOf(scheme: string, token: string, rest: string)
    requires ' ' !in scheme && ' ' !in token
    requires rest == [] || rest[0] == ' '
    ensures EncodedCredentials(scheme + " " + token + rest) == Some(token)
  {
    assert scheme + " " + token + rest == scheme + [' '] + (token + rest);
    SplitAfterPrefix(scheme, ' ', token + rest);
    if rest == [] {
      assert token + rest == token;
      SplitNoSeparator(token, ' ');
    } else {
      assert token + rest == token + [' '] + rest[1..];
      SplitAfterPrefix(token, ' ', rest[1..]);
    }
  }

  /** Any scheme word yields the same token: "Basic", "Bearer" and "x" are
      treated alike. */
  lemma SchemeIgnored(scheme1: string, scheme2: string, rest: string)
    requires ' ' !in scheme1 && ' ' !in scheme2
    ensures EncodedCredentials(scheme1 + " " + rest) == EncodedCredentials(scheme2 + " " + rest)
  {
    assert scheme1 + " " + rest == scheme1 + [' '] + rest;
    assert scheme2 + " " + rest == scheme2 + [' '] + rest;
    SplitAfterPrefix(scheme1, ' ', rest);
    SplitAfterPrefix(scheme2, ' ', rest);
  }

  /** The pair destructured from the decoded text; the password is
      `undefined` when the text holds no colon. */
  datatype Credentials = Credentials(emailAddress: string, password: Option<string>)

  /** `const [emailAddress, password] = decoded.split(':')`: the email is the
      text before the first colon, the password the text between the first
      and the second colon, and any further segments are dropped. */
  function SplitCredentials(decoded: string): (c: Credentials)
    ensures ':' !in c.emailAddress
    ensures c.password.Some? <==> ':' in decoded
    ensures c.password.Some? ==> ':' !in c.password.value
  {
    var parts := Split(decoded, ':');
    SplitHasSecondPart(decoded, ':');
    Credentials(parts[0], At(parts, 1))
  }

  /** A colon-free email and password come back out unchanged. */
  lemma CredentialsRoundTrip(email: string, password: string)
    requires ':' !in email && ':' !in password
    ensures SplitCredentials(email + ":" + password) == Credentials(email, Some(password))
  {
    assert email + ":" + password == email + [':'] + password;
    SplitAfterPrefix(email, ':', password);
    SplitNoSeparator(password, ':');
  }

  /** Without a colon the whole text is the email and the password is
      `undefined`. */
  lemma CredentialsWithoutColon(decoded: string)
    requires ':' !in decoded
    ensures SplitCredentials(decoded) == Credentials(decoded, None)
  {
    SplitNoSeparator(decoded, ':');
  }

  /** Everything after a second colon is dropped: the password checked is
      only the segment between the first two colons. */
  lemma ExtraSegmentsDropped(email: string, password: string, tail: string)
    requires ':' !in email && ':' !in password
    ensures SplitCredentials(email + ":" + password + ":" + tail) == Credentials(email, Some(password))
  {
    assert email + ":" + password + ":" + tail == email + [':'] + (password + [':'] + tail);
    SplitAfterPrefix(email, ':', password + [':'] + tail);
    SplitAfterPrefix(password, ':', tail);
  }

  /** Index of the first occurrence of `c` in `s`. */
  function FirstIndex(s: string, c: char): (i: nat)
    requires c in s
    ensures i < |s| && s[i] == c && c !in s[..i]
  {
    if s[0] == c then 0
    else
      var j := FirstIndex(s[1..], c);
      assert s[..j + 1] == [s[0]] + s[1..][..j];
      j + 1
  }

  /** A prefix free of `c` puts the first `c` right after it. */
  lemma {:induction false} FirstIndexAfterPrefix(p: string, c: char, rest: string)
    requires c !in p
    ensures FirstIndex(p + [c] + rest, c) == |p|
    decreases |p|
  {
    if |p| > 0 {
      var s := p + [c] + rest;
      assert s[1..] == p[1..] + [c] + rest;
      assert c !in p[1..];
      FirstIndexAfterPrefix(p[1..], c, rest);
    }
  }

  /** The split of section 2 of RFC 7617: the user-id ends at the first
      colon and the password is everything after it, colons included. */
  function SplitCredentialsRfc7617(decoded: string): (c: Credentials)
    ensures ':' !in c.emailAddress
    ensures c.password.Some? <==> ':' in decoded
    ensures c.password.Some? ==> decoded == c.emailAddress + ":" + c.password.value
    ensures c.password.None? ==> decoded == c.emailAddress
  {
    if ':' in decoded then
      var i := FirstIndex(decoded, ':');
      assert decoded == decoded[..i] + [':'] + decoded[i + 1..];
      Credentials(decoded[..i], Some(decoded[i + 1..]))
    else
      Credentials(decoded, None)
  }

  /** The RFC 7617 split returns any password, colons included, for a
      colon-free user-id. */
  lemma Rfc7617RoundTrip(email: string, password: string)
    requires ':' !in email
    ensures SplitCredentialsRfc7617(email + ":" + password) == Credentials(email, Some(password))
  {
    var s := email + ":" + password;
    assert s == email + [':'] + password;
    FirstIndexAfterPrefix(email, ':', password);
    assert s[..|email|] == email && s[|email| + 1..] == password;
  }

  /** The middleware's split agrees with RFC 7617 exactly when the password
      holds no colon (or there is no password at all). */
  lemma AgreesWithRfc7617(decoded: string)
    ensures SplitCredentials(decoded) == SplitCredentialsRfc7617(decoded)
        <==> (':' !in decoded || ':' !in SplitCredentialsRfc7617(decoded).password.value)
  {
    var r := SplitCredentialsRfc7617(decoded);
    if ':' !in decoded {
      CredentialsWithoutColon(decoded);
    } else {
      var q := r.password.value;
      assert decoded == r.emailAddress + [':'] + q;
      SplitAfterPrefix(r.emailAddress, ':', q);
      if ':' !in q {
        SplitNoSeparator(q, ':');
      } else {
        assert ':' !in Split(q, ':')[0];
      }
    }
  }

  /** A password holding a colon is truncated: "pa:ss" is checked as "pa". */
  lemma ColonPasswordTruncated()
    ensures SplitCredentials("ann@example.com:pa:ss") == Credentials("ann@example.com", Some("pa"))
    ensures SplitCredentialsRfc7617("ann@example.com:pa:ss") == Credentials("ann@example.com", Some("pa:ss"))
  {
    assert "ann@example.com:pa:ss" == "ann@example.com" + ":" + "pa" + ":" + "ss";
    ExtraSegmentsDropped("ann@example.com", "pa", "ss");
    assert "ann@example.com:pa:ss" == "ann@example.com" + ":" + "pa:ss";
    Rfc7617RoundTrip("ann@example.com", "pa:ss");
  }
}
