/** VerificationCode: a six-character, one-time code that expires five
    minutes after it is issued. The pure part (CodeState and the functions on
    it) is the specification; the class VerificationCode keeps the same state
    in mutable fields and its ShouldVerify updates them in place. */
module VerificationCodes {
  import opened Wrappers
  import opened Exceptions
  import opened Text

  /** MinLength: the length of an issued code, and the only length of a
      presented code that ShouldVerify accepts, in UTF-16 code units. */
  const CodeLength := 6

  /** Instants are DateTime ticks of 100 ns. */
  const TicksPerMinute := 600_000_000

  /** An issued code expires this many minutes after it is created. */
  const ValidityMinutes := 5

  predicate IsUpperHexDigit(c: char) {
    ('0' <= c <= '9') || ('A' <= c <= 'F')
  }

  predicate IsLowerHexDigit(c: char) {
    ('0' <= c <= '9') || ('a' <= c <= 'f')
  }

  /** The text of Guid.ToString("N"): 32 lower-case hexadecimal digits. */
  predicate IsGuidText(g: string) {
    |g| == 32 && forall i :: 0 <= i < |g| ==> IsLowerHexDigit(g[i])
  }

  /** The code a fresh GUID yields: its first six digits, upper-cased. */
  function NewCode(guid: string): (c: string)
    requires IsGuidText(guid)
    ensures |c| == CodeLength && Utf16Length(c) == CodeLength
    ensures forall i :: 0 <= i < |c| ==> IsUpperHexDigit(c[i])
    ensures !IsBlank(c)
  {
    var c := ToUpper(guid[..CodeLength]);
    assert IsUpperHexDigit(c[0]);
    c
  }

  /** The observable state of a verification code: Code, ExpiresAtUtc and
      VerifiedAtUtc, the two instants being nullable. */
  datatype CodeState = CodeState(code: string, expiresAtUtc: Option<int>, verifiedAtUtc: Option<int>)
  {
    /** IsActive: verified and no longer carrying an expiry. */
    predicate IsActive() {
      verifiedAtUtc.Some? && expiresAtUtc.None?
    }

    /** The states the constructors and ShouldVerify produce: once verified,
        a code has no expiry. */
    predicate Valid() {
      verifiedAtUtc.Some? ==> expiresAtUtc.None?
    }

    /** ExpiresAtUtc < now, with C#'s lifted comparison: false when
        ExpiresAtUtc is null. */
    predicate IsExpiredAt(now: int) {
      expiresAtUtc.Some? && expiresAtUtc.value < now
    }

    /** ToString, and the implicit conversion to string. */
    function ToString(): string {
      code
    }
  }

  /** ShouldCreate: a fresh code expiring five minutes from now, not yet
      verified. */
  function Issue(now: int, guid: string): (s: CodeState)
    requires IsGuidText(guid)
    ensures |s.code| == CodeLength && Utf16Length(s.code) == CodeLength
    ensures forall i :: 0 <= i < |s.code| ==> IsUpperHexDigit(s.code[i])
    ensures s.expiresAtUtc == Some(now + ValidityMinutes * TicksPerMinute)
    ensures s.expiresAtUtc.value > now
    ensures s.verifiedAtUtc.None?
    ensures s.Valid() && !s.IsActive()
  {
    CodeState(NewCode(guid), Some(now + ValidityMinutes * TicksPerMinute), None)
  }

  /** The public constructor VerificationCode(string), also the implicit
      conversion from string: the code as given and no instants. */
  function FromString(code: string): (s: CodeState)
    ensures s.code == code && s.ToString() == code
    ensures s.expiresAtUtc.None? && s.verifiedAtUtc.None?
    ensures s.Valid() && !s.IsActive()
  {
    CodeState(code, None, None)
  }

  /** ShouldVerify's guard chain on a state. A null presented code is None;
      wallNow is the reading of DateTime.UtcNow recorded as VerifiedAtUtc. On
      success only the two instants change; every failure is an
      InvalidVerificationCode. */
  function Verify(s: CodeState, presented: Option<string>, now: int, wallNow: int): (r: Result<CodeState, Error>)
    ensures r.Success? ==> r.value == CodeState(s.code, None, Some(wallNow))
    ensures r.Failure? ==> r.error.InvalidVerificationCode?
  {
    if presented.None? || presented.value == [] then
      Failure(InvalidVerificationCode(DefaultMessage))
    else if IsBlank(presented.value) then
      Failure(InvalidVerificationCode(DefaultMessage))
    else if Utf16Length(presented.value) != CodeLength then
      Failure(InvalidVerificationCode(DefaultMessage))
    else if s.code != presented.value then
      Failure(InvalidVerificationCode(DefaultMessage))
    else if s.verifiedAtUtc.Some? then
      Failure(InvalidVerificationCode(AlreadyVerified))
    else if s.IsExpiredAt(now) then
      Failure(InvalidVerificationCode(Expired))
    else
      Success(CodeState(s.code, None, Some(wallNow)))
  }

  /** Exactly when ShouldVerify succeeds: the presented code is the stored
      one, the stored one is six UTF-16 code units long and not all white
      space, the code was
      never verified and has not expired. */
  lemma VerifySucceedsIff(s: CodeState, presented: Option<string>, now: int, wallNow: int)
    ensures Verify(s, presented, now, wallNow).Success? <==>
      && presented == Some(s.code)
      && Utf16Length(s.code) == CodeLength && !IsBlank(s.code)
      && s.verifiedAtUtc.None?
      && !s.IsExpiredAt(now)
  {
  }

  /** Which message a failure carries. The code checks come first: a wrong
      code on a verified or expired code gets the default message. */
  lemma VerifyFailureMessages(s: CodeState, presented: Option<string>, now: int, wallNow: int)
    ensures var wellFormed := presented == Some(s.code) && Utf16Length(s.code) == CodeLength && !IsBlank(s.code);
      && (Verify(s, presented, now, wallNow) == Failure(InvalidVerificationCode(DefaultMessage)) <==> !wellFormed)
      && (Verify(s, presented, now, wallNow) == Failure(InvalidVerificationCode(AlreadyVerified))
          <==> wellFormed && s.verifiedAtUtc.Some?)
      && (Verify(s, presented, now, wallNow) == Failure(InvalidVerificationCode(Expired))
          <==> wellFormed && s.verifiedAtUtc.None? && s.IsExpiredAt(now))
  {
  }

  /** A successful verify leaves the code as it was, makes the state active
      and keeps it valid. */
  lemma VerifyActivates(s: CodeState, presented: Option<string>, now: int, wallNow: int)
    requires Verify(s, presented, now, wallNow).Success?
    ensures var next := Verify(s, presented, now, wallNow).value;
      next.code == s.code && next.IsActive() && next.Valid() && next.verifiedAtUtc == Some(wallNow)
  {
  }

  /** A code verifies at most once: after a success every further attempt
      fails, and presenting the same code again is reported as already
      verified. */
  lemma VerifyAtMostOnce(s: CodeState, presented: Option<string>, now: int, wallNow: int,
                         again: Option<string>, later: int, laterWall: int)
    requires Verify(s, presented, now, wallNow).Success?
    ensures Verify(Verify(s, presented, now, wallNow).value, again, later, laterWall).Failure?
    ensures again == presented ==>
      Verify(Verify(s, presented, now, wallNow).value, again, later, laterWall)
        == Failure(InvalidVerificationCode(AlreadyVerified))
  {
  }

  /** In every valid state, IsActive means "has been verified". */
  lemma ActiveIffVerified(s: CodeState)
    requires s.Valid()
    ensures s.IsActive() <==> s.verifiedAtUtc.Some?
  {
  }

  /** A code whose own length is not six UTF-16 code units, as the string
      constructor can build, can never be verified. */
  lemma WrongLengthNeverVerifies(code: string, presented: Option<string>, now: int, wallNow: int)
    requires Utf16Length(code) != CodeLength
    ensures Verify(FromString(code), presented, now, wallNow) == Failure(InvalidVerificationCode(DefaultMessage))
  {
  }

  /** Length counts UTF-16 code units: three characters outside the Basic
      Multilingual Plane make a code of length six, which verifies. */
  lemma WideCharactersCountTwice(now: int, wallNow: int)
    ensures var c := "\U{1F600}\U{1F600}\U{1F600}";
      && |c| == 3 && Utf16Length(c) == CodeLength
      && Verify(FromString(c), Some(c), now, wallNow).Success?
  {
    var c := "\U{1F600}\U{1F600}\U{1F600}";
    assert c[1..][1..][1..] == [];
    assert !IsWhiteSpace(c[0]);
  }

  /** An issued code, presented as issued, verifies exactly up to and
      including its expiry instant, and is reported expired after it. */
  lemma IssuedVerifiesUntilExpiry(issuedAt: int, guid: string, now: int, wallNow: int)
    requires IsGuidText(guid)
    ensures var s := Issue(issuedAt, guid);
      && (Verify(s, Some(s.code), now, wallNow).Success? <==> now <= issuedAt + ValidityMinutes * TicksPerMinute)
      && (now > issuedAt + ValidityMinutes * TicksPerMinute ==>
            Verify(s, Some(s.code), now, wallNow) == Failure(InvalidVerificationCode(Expired)))
  {
  }

  /** One call of ShouldVerify: the presented code and the two clock readings. */
  datatype Attempt = Attempt(presented: Option<string>, now: int, wallNow: int)

  /** The state after a series of ShouldVerify calls, and how many of them
      succeeded. */
  function Replay(s: CodeState, attempts: seq<Attempt>): (CodeState, nat)
    decreases |attempts|
  {
    if attempts == [] then (s, 0)
    else
      var a := attempts[0];
      match Verify(s, a.presented, a.now, a.wallNow)
      case Success(next) => var (last, n) := Replay(next, attempts[1..]); (last, n + 1)
      case Failure(_) => Replay(s, attempts[1..])
  }

  /** Over any series of calls: at most one succeeds, none does (and nothing
      changes) if the code was already verified, the code never changes, validity is kept, and
      from an unverified state the code ends active exactly when one call
      succeeded. */
  lemma {:induction false} ReplaySucceedsAtMostOnce(s: CodeState, attempts: seq<Attempt>)
    ensures Replay(s, attempts).1 <= 1
    ensures s.verifiedAtUtc.Some? ==> Replay(s, attempts) == (s, 0)
    ensures Replay(s, attempts).0.code == s.code
    ensures s.Valid() ==> Replay(s, attempts).0.Valid()
    ensures s.verifiedAtUtc.None? ==> (Replay(s, attempts).1 == 1 <==> Replay(s, attempts).0.IsActive())
    decreases |attempts|
  {
    if attempts != [] {
      var a := attempts[0];
      match Verify(s, a.presented, a.now, a.wallNow)
      case Success(next) =>
        ReplaySucceedsAtMostOnce(next, attempts[1..]);
      case Failure(_) =>
        ReplaySucceedsAtMostOnce(s, attempts[1..]);
    }
  }

  /** A verification code object. Code never changes; ShouldVerify assigns
      the two instants in place. */
  class VerificationCode {
    const code: string
    var expiresAtUtc: Option<int>
    var verifiedAtUtc: Option<int>

    /** The three properties Code, ExpiresAtUtc and VerifiedAtUtc. */
    function State(): CodeState
      reads this
    {
      CodeState(code, expiresAtUtc, verifiedAtUtc)
    }

    /** IsActive. */
    predicate IsActive()
      reads this
    {
      State().IsActive()
    }

    /** ToString, and the implicit conversion to string. */
    function ToString(): (s: string)
      ensures s == State().ToString()
    {
      code
    }

    /** VerificationCode(string), also the implicit conversion from string. */
    constructor (code: string)
      ensures State() == FromString(code)
      ensures ToString() == code
    {
      this.code := code;
      expiresAtUtc := None;
      verifiedAtUtc := None;
    }

    /** The private constructor ShouldCreate uses. */
    constructor Issued(code: string, expiresAtUtc: int)
      ensures State() == CodeState(code, Some(expiresAtUtc), None)
    {
      this.code := code;
      this.expiresAtUtc := Some(expiresAtUtc);
      verifiedAtUtc := None;
    }

    /** ShouldCreate: now is the clock provider's reading and guid the text
        of a fresh GUID. */
    static method ShouldCreate(now: int, guid: string) returns (v: VerificationCode)
      requires IsGuidText(guid)
      ensures fresh(v)
      ensures v.State() == Issue(now, guid)
    {
      v := new VerificationCode.Issued(ToUpper(guid[..CodeLength]), now + ValidityMinutes * TicksPerMinute);
    }

    /** ShouldVerify: the guards in order, then the one update. A failure
        changes nothing. */
    method ShouldVerify(presented: Option<string>, now: int, wallNow: int) returns (r: Outcome<Error>)
      modifies this
      ensures match Verify(old(State()), presented, now, wallNow)
        case Success(next) => r == Pass && State() == next
        case Failure(e) => r == Fail(e) && State() == old(State())
    {
      if presented.None? || |presented.value| == 0 {
        return Fail(InvalidVerificationCode(DefaultMessage));
      }
      var given := presented.value;
      if IsBlank(given) {
        return Fail(InvalidVerificationCode(DefaultMessage));
      }
      if Utf16Length(given) != CodeLength {
        return Fail(InvalidVerificationCode(DefaultMessage));
      }
      if code != given {
        return Fail(InvalidVerificationCode(DefaultMessage));
      }
      if verifiedAtUtc.Some? {
        return Fail(InvalidVerificationCode(AlreadyVerified));
      }
      if expiresAtUtc.Some? && expiresAtUtc.value < now {
        return Fail(InvalidVerificationCode(Expired));
      }
      verifiedAtUtc := Some(wallNow);
      expiresAtUtc := None;
      r := Pass;
    }
  }

  /** A code issued and then presented twice with its own text at the same
      instant: the first call succeeds and activates it, the second reports it
      already verified. */
  method VerifyTwice(now: int, guid: string, wallNow: int) returns (first: Outcome<Error>, second: Outcome<Error>, active: bool)
    requires IsGuidText(guid)
    ensures first == Pass && active
    ensures second == Fail(InvalidVerificationCode(AlreadyVerified))
  {
    var v := VerificationCode.ShouldCreate(now, guid);
    first := v.ShouldVerify(Some(v.ToString()), now, wallNow);
    active := v.IsActive();
    second := v.ShouldVerify(Some(v.ToString()), now, wallNow);
  }
}
