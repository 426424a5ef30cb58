/**
 * Proof Key for Code Exchange (RFC 7636) as the widget does it:
 * `generateCodeVerifier` (widget.js:7-14) draws the code_verifier of
 * section 4.1 one character at a time from the 66 unreserved characters,
 * and `generateCodeChallenge` (widget.js:16-23) turns it into the S256
 * code_challenge of section 4.2: SHA-256 over the UTF-8 bytes, base 64,
 * then the base64url rewrite of section 5 of RFC 4648 without padding.
 *
 * `Math.random` is a sequence of draws supplied by the caller, each draw
 * being the value of `Math.floor(Math.random() * possible.length)`;
 * SHA-256 is a function supplied by the caller.
 */
module Pkce {
  import opened Wrappers
  import opened Text
  import opened Encoding
  import Base64


  /** The length generateCodeVerifier uses when called without an argument. */
  const DefaultVerifierLength: nat := 128

  /** `unreserved` of section 2.3 of RFC 3986, the character set of a code_verifier. */
  predicate IsUnreserved(c: char)
  {
    ('A' <= c <= 'Z') || ('a' <= c <= 'z') || ('0' <= c <= '9') || c == '-' || c == '.' || c == '_' || c == '~'
  }

  /** A string of 43 to 128 unreserved characters, as section 4.1 of RFC 7636 demands of a code_verifier. */
  predicate IsCodeVerifier(s: string)
  {
    43 <= |s| <= 128 && forall i :: 0 <= i < |s| ==> IsUnreserved(s[i])
  }

  /** The four runs `Possible` is made of. */
  const Upper: string := "ABCDEFGHIJKLMNOPQRSTUVWXYZ"
  const Lower: string := "abcdefghijklmnopqrstuvwxyz"
  const Digits: string := "0123456789"
  const Marks: string := "-._~"

  /**
   * The alphabet `possible` of generateCodeVerifier,
   * "ABCDEFGHIJKLMNOPQRSTUVWXYZabcdefghijklmnopqrstuvwxyz0123456789-._~",
   * written as its four runs.
   */
  const Possible: string := Upper + Lower + Digits + Marks

  /** Every letter of `Possible` is unreserved. */
  lemma PossibleCharIsUnreserved(k: nat)
    requires k < |Possible|
    ensures IsUnreserved(Possible[k])
  {
    var upper, lower, digits, marks := Upper, Lower, Digits, Marks;
    if k < 26 {
      assert Possible[k] == upper[k];
    } else if k < 52 {
      assert Possible[k] == lower[k - 26];
    } else if k < 62 {
      assert Possible[k] == digits[k - 52];
    } else {
      assert Possible[k] == marks[k - 62];
    }
  }

  /** Every unreserved character is a letter of `Possible`. */
  lemma UnreservedIsPossible(c: char)
    requires IsUnreserved(c)
    ensures c in Possible
  {
    var upper, lower, digits, marks := Upper, Lower, Digits, Marks;
    if 'A' <= c <= 'Z' {
      var k := c as int - 'A' as int;
      assert upper[k] == ('A' as int + k) as char == c;
      assert Possible[k] == c;
    } else if 'a' <= c <= 'z' {
      var k := c as int - 'a' as int;
      assert lower[k] == ('a' as int + k) as char == c;
      assert Possible[26 + k] == c;
    } else if '0' <= c <= '9' {
      var k := c as int - '0' as int;
      assert digits[k] == ('0' as int + k) as char == c;
      assert Possible[52 + k] == c;
    } else {
      assert c in marks;
      assert Possible[62..] == marks;
    }
  }

  /** `Possible` holds exactly the 66 unreserved characters. */
  lemma PossibleIsUnreserved()
    ensures |Possible| == 66
    ensures forall k :: 0 <= k < |Possible| ==> IsUnreserved(Possible[k])
    ensures forall c :: IsUnreserved(c) ==> c in Possible
  {
    forall k | 0 <= k < |Possible| ensures IsUnreserved(Possible[k]) {
      PossibleCharIsUnreserved(k);
    }
    forall c | IsUnreserved(c) ensures c in Possible {
      UnreservedIsPossible(c);
    }
  }

  /** `s.charAt(k)`: the character at `k` as a one-character string, or `""` past the end. */
  function CharAt(s: string, k: nat): (r: string)
    ensures |r| <= 1
    ensures |r| == 1 <==> k < |s|
    ensures k < |s| ==> r[0] == s[k]
  {
    if k < |s| then [s[k]] else ""
  }

  /** The string generateCodeVerifier builds from the draws, one `charAt` appended per draw. */
  function Verifier(draws: seq<nat>): string
  {
    if draws == [] then "" else Verifier(draws[..|draws| - 1]) + CharAt(Possible, draws[|draws| - 1])
  }

  /** A draw that `Math.floor(Math.random() * possible.length)` can produce. */
  predicate InRange(draws: seq<nat>)
  {
    forall k :: 0 <= k < |draws| ==> draws[k] < |Possible|
  }

  /** Dropping the last draw keeps the others in range. */
  lemma InRangeInit(draws: seq<nat>)
    requires draws != []
    ensures InRange(draws) <==> InRange(draws[..|draws| - 1]) && draws[|draws| - 1] < |Possible|
  {
    var init := draws[..|draws| - 1];
    if InRange(init) && draws[|draws| - 1] < |Possible| {
      forall k | 0 <= k < |draws| ensures draws[k] < |Possible| {
        if k < |draws| - 1 { assert draws[k] == init[k]; }
      }
    }
  }

  /** The verifier has one character per draw exactly when every draw falls inside the alphabet. */
  lemma {:induction false} VerifierLength(draws: seq<nat>)
    ensures |Verifier(draws)| <= |draws|
    ensures |Verifier(draws)| == |draws| <==> InRange(draws)
  {
    if draws != [] {
      var init := draws[..|draws| - 1];
      VerifierLength(init);
      InRangeInit(draws);
      assert |Verifier(draws)| == |Verifier(init)| + |CharAt(Possible, draws[|draws| - 1])|;
    }
  }

  /** With every draw in range, the i-th character of the verifier is the letter the i-th draw picks. */
  lemma {:induction false} VerifierCharacters(draws: seq<nat>)
    requires InRange(draws)
    ensures |Verifier(draws)| == |draws|
    ensures forall i :: 0 <= i < |draws| ==> Verifier(draws)[i] == Possible[draws[i]]
  {
    VerifierLength(draws);
    if draws != [] {
      var init := draws[..|draws| - 1];
      InRangeInit(draws);
      VerifierCharacters(init);
      VerifierLength(init);
      forall i | 0 <= i < |draws| ensures Verifier(draws)[i] == Possible[draws[i]] {
        if i < |draws| - 1 {
          assert Verifier(draws)[i] == Verifier(init)[i];
          assert draws[i] == init[i];
        }
      }
    }
  }

  /** Whatever the draws, every character of the verifier is unreserved. */
  lemma {:induction false} VerifierAlphabet(draws: seq<nat>)
    ensures forall i :: 0 <= i < |Verifier(draws)| ==> IsUnreserved(Verifier(draws)[i])
  {
    PossibleIsUnreserved();
    if draws != [] {
      VerifierAlphabet(draws[..|draws| - 1]);
    }
  }

  /**
   * generateCodeVerifier(length): the loop of widget.js:9-12, appending
   * `possible.charAt(draw)` once per iteration. `random` supplies the draws;
   * the first `length` of them are used.
   */
  method GenerateCodeVerifier(length: nat, random: seq<nat>) returns (codeVerifier: string)
    requires |random| >= length
    ensures codeVerifier == Verifier(random[..length])
    ensures |codeVerifier| <= length
    ensures InRange(random[..length]) ==> |codeVerifier| == length
    ensures forall i :: 0 <= i < |codeVerifier| ==> IsUnreserved(codeVerifier[i])
  {
    codeVerifier := "";
    for i := 0 to length
      invariant codeVerifier == Verifier(random[..i])
    {
      assert random[..i + 1][..i] == random[..i];
      codeVerifier := codeVerifier + CharAt(Possible, random[i]);
    }
    VerifierLength(random[..length]);
    VerifierAlphabet(random[..length]);
  }

  /** With the default length and in-range draws the result is a valid RFC 7636 code_verifier. */
  lemma DefaultVerifierConforms(draws: seq<nat>)
    requires |draws| == DefaultVerifierLength && InRange(draws)
    ensures IsCodeVerifier(Verifier(draws))
  {
    VerifierLength(draws);
    VerifierAlphabet(draws);
  }

  /** The characters of the base64url alphabet of section 5 of RFC 4648. */
  predicate IsBase64UrlChar(c: char)
  {
    ('A' <= c <= 'Z') || ('a' <= c <= 'z') || ('0' <= c <= '9') || c == '-' || c == '_'
  }

  /** The chained `.replace(/\+/g, '-').replace(/\//g, '_').replace(/=+$/, '')` of widget.js:20-22. */
  function Base64Url(b64: string): string
  {
    StripTrailing(ReplaceChar(ReplaceChar(b64, '+', '-'), '/', '_'), '=')
  }

  /** The character the rewrite puts in place of a base 64 character. */
  function UrlChar(c: char): char
  {
    if c == '+' then '-' else if c == '/' then '_' else c
  }

  /** The code_challenge for a digest: its base 64 encoding, rewritten to base64url. */
  function CodeChallenge(digest: seq<byte>): string
  {
    Base64Url(Base64.Encode(digest))
  }

  /**
   * generateCodeChallenge(codeVerifier): SHA-256 of the verifier's UTF-8
   * bytes (TextEncoder), then CodeChallenge. `sha256` stands for
   * `crypto.subtle.digest('SHA-256', ·)`.
   */
  function GenerateCodeChallenge(codeVerifier: string, sha256: seq<byte> -> seq<byte>): string
  {
    CodeChallenge(sha256(Utf8(codeVerifier)))
  }

  /**
   * The challenge is the base 64 encoding without its padding, with every
   * `+` turned into `-` and every `/` into `_`, and every other character
   * kept in place.
   */
  lemma ChallengeCharacters(digest: seq<byte>)
    ensures var e := Base64.Encode(digest);
      |CodeChallenge(digest)| == |e| - Base64.PaddingLength(|digest|) &&
      forall i :: 0 <= i < |CodeChallenge(digest)| ==> CodeChallenge(digest)[i] == UrlChar(e[i])
    ensures forall i :: 0 <= i < |CodeChallenge(digest)| ==> IsBase64UrlChar(CodeChallenge(digest)[i])
  {
    var e := Base64.Encode(digest);
    var p := Base64.PaddingLength(|digest|);
    Base64.EncodeShape(digest);
    var mapped := ReplaceChar(ReplaceChar(e, '+', '-'), '/', '_');
    var r := StripTrailing(mapped, '=');
    assert forall i :: 0 <= i < |e| ==> mapped[i] == UrlChar(e[i]);
    // the padding is stripped, and the character before it is not `=`
    assert |e| - p <= |r| by {
      if |e| - p > 0 {
        assert mapped[|e| - p - 1] != '=';
      }
    }
    assert |r| <= |e| - p by {
      forall i | |e| - p <= i < |e| ensures mapped[i] == '=' { }
      StripTrailingUnique(mapped, '=', mapped[..|e| - p]);
    }
  }

  /** The challenge holds no `+`, no `/` and no `=` (base64url without padding). */
  lemma ChallengeHasNoBase64Only(digest: seq<byte>)
    ensures '+' !in CodeChallenge(digest) && '/' !in CodeChallenge(digest) && '=' !in CodeChallenge(digest)
    ensures forall i :: 0 <= i < |CodeChallenge(digest)| ==> IsUnreserved(CodeChallenge(digest)[i])
  {
    ChallengeCharacters(digest);
  }

  /**
   * A SHA-256 digest has 32 bytes: its base 64 encoding has 44 characters
   * of which only the last is `=`, so the challenge has 43 characters, the
   * shortest length section 4.2 of RFC 7636 allows.
   */
  lemma ChallengeOfDigestLength(digest: seq<byte>)
    requires |digest| == 32
    ensures |Base64.Encode(digest)| == 44
    ensures Base64.Encode(digest)[43] == '=' && Base64.Encode(digest)[42] != '='
    ensures |CodeChallenge(digest)| == 43
    ensures IsCodeVerifier(CodeChallenge(digest))
  {
    assert (32 + 2) / 3 == 11 && Base64.PaddingLength(32) == 1;
    Base64.EncodeLength(digest);
    Base64.EncodeShape(digest);
    ChallengeCharacters(digest);
    ChallengeHasNoBase64Only(digest);
  }

  /** Undoes the base64url rewrite: `-` and `_` back to `+` and `/`, and `=` up to a multiple of four. */
  function FromBase64Url(s: string): string
  {
    var b64 := ReplaceChar(ReplaceChar(s, '-', '+'), '_', '/');
    b64 + Repeat('=', (4 - |s| % 4) % 4)
  }

  /** Re-padding an unpadded length restores the padding, when that padding was at most two. */
  lemma RepadLength(len: nat, p: nat)
    requires len % 4 == 0 && p <= 2 && p <= len
    ensures (4 - (len - p) % 4) % 4 == p
  {
  }

  /** FromBase64Url takes the rewritten characters back, one for one. */
  lemma FromBase64UrlAt(c: string, i: nat)
    requires i < |c|
    ensures FromBase64Url(c)[i] == (if c[i] == '-' then '+' else if c[i] == '_' then '/' else c[i])
  {
  }

  /** FromBase64Url undoes the rewrite of a padded base 64 string. */
  lemma UndoRewrite(e: string, c: string, p: nat)
    requires |e| % 4 == 0 && p <= 2 && p <= |e| && |c| == |e| - p
    requires forall i :: 0 <= i < |c| ==> Base64.IsBase64Char(e[i]) && c[i] == UrlChar(e[i])
    requires forall i :: |c| <= i < |e| ==> e[i] == '='
    ensures FromBase64Url(c) == e
  {
    RepadLength(|e|, p);
    var f := FromBase64Url(c);
    assert f == ReplaceChar(ReplaceChar(c, '-', '+'), '_', '/') + Repeat('=', p);
    forall i | 0 <= i < |e| ensures f[i] == e[i] {
      if i < |c| {
        FromBase64UrlAt(c, i);
      }
    }
  }

  /**
   * A server that receives the challenge can recover the digest from it:
   * undoing the rewrite gives the base 64 encoding back, and that decodes
   * to the digest.
   */
  lemma ChallengeRoundTrip(digest: seq<byte>)
    ensures FromBase64Url(CodeChallenge(digest)) == Base64.Encode(digest)
    ensures Base64.Decode(FromBase64Url(CodeChallenge(digest))) == Some(digest)
  {
    var e, c, p := Base64.Encode(digest), CodeChallenge(digest), Base64.PaddingLength(|digest|);
    ChallengeCharacters(digest);
    Base64.EncodeShape(digest);
    Base64.EncodeLength(digest);
    assert p <= 2 && p <= |e| && |c| == |e| - p;
    assert forall i :: 0 <= i < |c| ==> Base64.IsBase64Char(e[i]) && c[i] == UrlChar(e[i]);
    assert forall i :: |c| <= i < |e| ==> e[i] == '=';
    UndoRewrite(e, c, p);
    Base64.DecodeEncode(digest);
  }
}
