/** Email: an address normalised by Trim then ToLower, accepted only if it
    matches the address pattern, stored with an encoded hash of itself and,
    from the clock overload, a freshly issued verification code. */
module Emails {
  import opened Wrappers
  import opened Exceptions
  import opened Text
  import opened EmailGrammar
  import opened VerificationCodes

  /** An email value. The address and the hash are immutable; the
      verification code it owns (null from the one-argument factory) is the
      only mutable part. */
  datatype Email = Email(address: string, hash: string, verificationCode: VerificationCode?)
  {
    /** ToString, and the implicit conversion to string. */
    function ToString(): string {
      address
    }

    /** ShouldCreate(address), also the explicit conversion from string. A
        null input fails inside Trim; toBase64 is the string extension ToBase64,
        whose definition is not part of this model. */
    static function ShouldCreate(input: Option<string>, toBase64: string -> string): (r: Result<Email, Error>)
      ensures input.None? ==> r == Failure(NullReference)
      ensures input.Some? ==> (r.Success? <==> IsMatch(Normalize(input.value)))
      ensures input.Some? && r.Failure? ==> r.error == InvalidEmail
      ensures r.Success? ==>
        (&& input.Some?
         && r.value.address == Normalize(input.value)
         && FullMatch(r.value.address)
         && r.value.hash == toBase64(r.value.address)
         && r.value.verificationCode == null)
    {
      if input.None? then Failure(NullReference)
      else
        var address := Normalize(input.value);
        NormalizedShape(input.value);
        AddressIffFullMatch(address);
        if !IsAddress(address) then Failure(InvalidEmail)
        else Success(Email(address, toBase64(address), null))
    }

    /** ShouldCreate(address, dateTimeProvider): the same checks and the same
        address and hash as the one-argument factory, plus a code issued at
        now from the fresh GUID text guid. */
    static method ShouldCreateWithCode(input: Option<string>, toBase64: string -> string, now: int, guid: string)
      returns (r: Result<Email, Error>)
      requires IsGuidText(guid)
      ensures r.Failure? ==> r == ShouldCreate(input, toBase64)
      ensures r.Success? ==>
        (&& ShouldCreate(input, toBase64).Success?
         && r.value.address == ShouldCreate(input, toBase64).value.address
         && r.value.hash == ShouldCreate(input, toBase64).value.hash
         && r.value.verificationCode != null
         && fresh(r.value.verificationCode)
         && r.value.verificationCode.State() == Issue(now, guid))
      ensures ShouldCreate(input, toBase64).Success? ==> r.Success?
    {
      if input.None? {
        return Failure(NullReference);
      }
      var address := Trim(input.value);
      address := ToLower(address);
      NormalizedShape(input.value);
      AddressIffFullMatch(address);
      if !IsAddress(address) {
        return Failure(InvalidEmail);
      }
      var code := VerificationCode.ShouldCreate(now, guid);
      r := Success(Email(address, toBase64(address), code));
    }

    /** ShouldVerify: delegates to the owned code, which is a null reference
        when the email came from the one-argument factory. */
    method ShouldVerify(presented: Option<string>, now: int, wallNow: int) returns (r: Outcome<Error>)
      modifies verificationCode
      ensures verificationCode == null ==> r == Fail(NullReference)
      ensures verificationCode != null ==>
        match Verify(old(verificationCode.State()), presented, now, wallNow)
        case Success(next) => r == Pass && verificationCode.State() == next
        case Failure(e) => r == Fail(e) && verificationCode.State() == old(verificationCode.State())
    {
      if verificationCode == null {
        return Fail(NullReference);
      }
      r := verificationCode.ShouldVerify(presented, now, wallNow);
    }
  }

  /** The hash depends on the normalised address only: inputs that normalise
      alike give the same email. */
  lemma SameNormalFormSameEmail(a: string, b: string, toBase64: string -> string)
    requires Normalize(a) == Normalize(b)
    ensures Email.ShouldCreate(Some(a), toBase64) == Email.ShouldCreate(Some(b), toBase64)
  {
  }

  /** Re-creating an email from its own string form gives it back. */
  lemma RecreateFromString(input: string, toBase64: string -> string)
    requires Email.ShouldCreate(Some(input), toBase64).Success?
    ensures var e := Email.ShouldCreate(Some(input), toBase64).value;
      Email.ShouldCreate(Some(e.ToString()), toBase64) == Success(e)
  {
    NormalizeIdempotent(input);
  }

  /** For an already normalised address that matches the pattern, the
      explicit conversion from string and back returns it unchanged. */
  lemma ConversionRoundTrip(s: string, toBase64: string -> string)
    requires Normalize(s) == s && IsMatch(s)
    ensures Email.ShouldCreate(Some(s), toBase64).Success?
    ensures Email.ShouldCreate(Some(s), toBase64).value.ToString() == s
  {
  }

  /** A string with no white space at its ends and no upper-case letter is
      its own normal form. */
  lemma NormalOfNormalized(s: string)
    requires IsTrimmed(s)
    requires forall i :: 0 <= i < |s| ==> !('A' <= s[i] <= 'Z')
    ensures Normalize(s) == s
  {
    TrimOfTrimmed(s);
    assert ToLower(s) == s;
  }

  /** An input without '@' is rejected with InvalidEmail: normalisation
      cannot create one. */
  lemma NoAtRejected(s: string, toBase64: string -> string)
    requires '@' !in s
    ensures Email.ShouldCreate(Some(s), toBase64) == Failure(InvalidEmail)
  {
    var k := TrimIsSlice(s);
    var n := Normalize(s);
    forall i | 0 <= i < |n|
      ensures n[i] != '@'
    {
      assert Trim(s)[i] == s[k + i];
    }
    assert !IsAddress(n);
    AddressIffFullMatch(n);
  }

  /** The malformed addresses the unit tests present. */
  const MalformedTestInputs: seq<string> := ["", "invalid", "invalid.com", "something here"]

  /** Each malformed address of the unit tests fails with InvalidEmail. */
  lemma MalformedTestInputsRejected(k: nat, toBase64: string -> string)
    requires k < |MalformedTestInputs|
    ensures Email.ShouldCreate(Some(MalformedTestInputs[k]), toBase64) == Failure(InvalidEmail)
  {
    var s := MalformedTestInputs[k];
    assert '@' !in s by {
      assert s == "" || s == "invalid" || s == "invalid.com" || s == "something here";
    }
    NoAtRejected(s, toBase64);
  }

  /** A normalised address made of a local part, '@' and a two-label domain
      is accepted as it is. */
  lemma SimpleAddressAccepted(local: string, host: string, tld: string, toBase64: string -> string)
    requires Segmented(local, LocalSeparators)
    requires Segmented(host, DomainSeparators) && Segmented(tld, DomainSeparators)
    requires Normalize(local + ['@'] + host + ['.'] + tld) == local + ['@'] + host + ['.'] + tld
    ensures var s := local + ['@'] + host + ['.'] + tld;
      Email.ShouldCreate(Some(s), toBase64) == Success(Email(s, toBase64(s), null))
  {
    var s := local + ['@'] + host + ['.'] + tld;
    AssembleAddress(local, host, tld);
    AddressIffFullMatch(s);
  }

  /** White space around the input does not matter: it is trimmed before
      the check. */
  lemma SurroundingWhiteSpaceIgnored(before: string, s: string, after: string, toBase64: string -> string)
    requires IsBlank(before) && IsBlank(after)
    ensures Email.ShouldCreate(Some(before + s + after), toBase64) == Email.ShouldCreate(Some(s), toBase64)
  {
    TrimIgnoresPadding(before, s, after);
    SameNormalFormSameEmail(before + s + after, s, toBase64);
  }

  /** The case of the input's letters does not matter: it is lower-cased
      before the check. */
  lemma LetterCaseIgnored(s: string, toBase64: string -> string)
    ensures Email.ShouldCreate(Some(ToUpper(s)), toBase64) == Email.ShouldCreate(Some(s), toBase64)
  {
    forall i | 0 <= i < |s|
      ensures LowerChar(ToUpper(s)[i]) == LowerChar(s[i])
    {
    }
    NormalizeAgrees(ToUpper(s), s);
    SameNormalFormSameEmail(ToUpper(s), s, toBase64);
  }

  /** The well-formed addresses the unit tests present, as local part, host
      and top-level label. */
  const WellFormedTestInputs: seq<(string, string, string)> := [
    ("batgirl", "test", "com"), ("robin", "test", "com"), ("batman", "test", "com"),
    ("batgirl", "personal", "com"), ("robin", "gmail", "com"), ("batman", "outlook", "com"),
    ("test", "test", "com")]

  /** The address local@host.tld. */
  function JoinAddress(parts: (string, string, string)): string {
    parts.0 + ['@'] + parts.1 + ['.'] + parts.2
  }

  /** Only lower-case ASCII letters, at least one. */
  predicate IsLowerWord(w: string) {
    |w| > 0 && forall i :: 0 <= i < |w| ==> 'a' <= w[i] <= 'z'
  }

  /** local@host.tld, each part a lower-case word, is accepted unchanged. */
  lemma LowerAddressAccepted(parts: (string, string, string), toBase64: string -> string)
    requires IsLowerWord(parts.0) && IsLowerWord(parts.1) && IsLowerWord(parts.2)
    ensures var s := JoinAddress(parts);
      Email.ShouldCreate(Some(s), toBase64) == Success(Email(s, toBase64(s), null))
  {
    var (local, host, tld) := parts;
    var s := JoinAddress(parts);
    assert Segmented(local, LocalSeparators) by {
      assert forall i :: 0 < i < |local| ==> WordBeside(local, i);
    }
    assert Segmented(host, DomainSeparators) by {
      assert forall i :: 0 < i < |host| ==> WordBeside(host, i);
    }
    assert Segmented(tld, DomainSeparators) by {
      assert forall i :: 0 < i < |tld| ==> WordBeside(tld, i);
    }
    forall i | 0 <= i < |s|
      ensures !('A' <= s[i] <= 'Z')
    {
      if i < |local| {
        assert s[i] == local[i];
      } else if |local| < i < |local| + 1 + |host| {
        assert s[i] == host[i - |local| - 1];
      } else if i > |local| + 1 + |host| {
        assert s[i] == tld[i - |local| - 2 - |host|];
      }
    }
    assert s[0] == local[0] && s[|s| - 1] == tld[|tld| - 1];
    NormalOfNormalized(s);
    SimpleAddressAccepted(local, host, tld, toBase64);
  }

  /** Each well-formed address of the unit tests is accepted unchanged, so
      its string form is the address given. */
  lemma WellFormedTestInputsAccepted(k: nat, toBase64: string -> string)
    requires k < |WellFormedTestInputs|
    ensures var s := JoinAddress(WellFormedTestInputs[k]);
      Email.ShouldCreate(Some(s), toBase64) == Success(Email(s, toBase64(s), null))
  {
    var parts := WellFormedTestInputs[k];
    assert IsLowerWord(parts.0) && IsLowerWord(parts.1) && IsLowerWord(parts.2);
    LowerAddressAccepted(parts, toBase64);
  }
}
