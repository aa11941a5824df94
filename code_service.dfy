/** `DefaultVerificationCodeService` with `SimpleCodeGenerator`: issuing a code to an identity,
    at most once per restriction period, and checking a code once. */
module CodeService {
  import opened Wrappers
  import opened Text
  import opened VerificationIdentity
  import opened CodeStorage
  import opened ErrorCode

  /** Codes are drawn below this bound and written with four digits. */
  const MAXIMUM_CODE_EXCLUDE: nat := 10000

  /** `SimpleCodeGenerator.generate`: `random` is the value drawn from `Random.nextInt(10000)`;
      it is written zero-padded to four digits, so the code reads back as that value. */
  function Generate(random: nat): (code: string)
    requires random < MAXIMUM_CODE_EXCLUDE
    ensures |code| == 4 && AllDigits(code) && DigitsValue(code) == random
  {
    assert Pow10(4) == MAXIMUM_CODE_EXCLUDE;
    NatToStringLength(random, 4);
    PadZerosValue(random, 4);
    PadZeros(random, 4)
  }

  /** Different draws give different codes. */
  lemma GenerateInjective(a: nat, b: nat)
    requires a < MAXIMUM_CODE_EXCLUDE && b < MAXIMUM_CODE_EXCLUDE && a != b
    ensures Generate(a) != Generate(b)
  {
    assert DigitsValue(Generate(a)) != DigitsValue(Generate(b));
  }

  /** A `VerificationCodeSender`, seen through the codes it has delivered, in order. */
  class RecordingCodeSender {
    var sent: seq<(Identity, string)>

    constructor ()
      ensures sent == []
    {
      sent := [];
    }

    /** `sendVerificationCode`: one more delivery. */
    method SendVerificationCode(identity: Identity, verificationCode: string)
      modifies this
      ensures sent == old(sent) + [(identity, verificationCode)]
    {
      sent := sent + [(identity, verificationCode)];
    }
  }

  /** How a service call ends abnormally: an error code raised by the service, or the sender's
      own failure, which the service lets through. */
  datatype ServiceError = Raised(exception: ErrorCodeException) | SenderFailed

  class DefaultVerificationCodeService {
    const storage: RedisBackedVerificationCodeStorage
    const sender: RecordingCodeSender

    constructor (storage: RedisBackedVerificationCodeStorage, sender: RecordingCodeSender)
      ensures this.storage == storage && this.sender == sender
    {
      this.storage := storage;
      this.sender := sender;
    }

    /** `newVerificationCode`: refused while the identity is restricted, with nothing sent or
        stored; otherwise the stored code, or a fresh one when none (or an empty one) is
        stored, is sent and then stored, which restricts the identity for a minute. A failing
        sender stops the call before anything is stored. */
    method NewVerificationCode(identity: Identity, random: nat, senderFails: bool) returns (r: Result<string, ServiceError>)
      requires random < MAXIMUM_CODE_EXCLUDE
      modifies storage, sender
      ensures old(storage.IsRequestRestricted(Wrap(identity))) ==>
        r == Err(Raised(TOO_MANY_VERIFICATION_CODE_REQUEST.E()))
        && storage.store == old(storage.store) && sender.sent == old(sender.sent)
      ensures !old(storage.IsRequestRestricted(Wrap(identity))) && senderFails ==>
        r == Err(SenderFailed) && storage.store == old(storage.store) && sender.sent == old(sender.sent)
      ensures !old(storage.IsRequestRestricted(Wrap(identity))) && !senderFails ==>
        var stored := old(storage.Get(Wrap(identity)));
        var code := if IsNullOrEmpty(stored) then Generate(random) else stored.value;
        r == Ok(code)
        && sender.sent == old(sender.sent) + [(identity, code)]
        && storage.store == Written(old(storage.store), Wrap(identity), code)
      ensures r.Ok? ==> (storage.Get(Wrap(identity)) == Some(r.value)
        && (storage.IsRequestRestricted(Wrap(identity)) <==> identity.entries != []))
    {
      var w := Wrap(identity);
      var thrown := TOO_MANY_VERIFICATION_CODE_REQUEST.ThrowIf(storage.IsRequestRestricted(w));
      if thrown.Some? {
        return Err(Raised(thrown.value));
      }
      var verificationCode := storage.Get(w);
      var code: string;
      if IsNullOrEmpty(verificationCode) {
        code := Generate(random);
      } else {
        code := verificationCode.value;
      }
      if senderFails {
        return Err(SenderFailed);
      }
      sender.SendVerificationCode(identity, code);
      storage.Set(w, code);
      return Ok(code);
    }

    /** `verify`: a null or empty code, or one that differs from the stored code (including
        when none is stored), raises INCORRECT_VERIFICATION_CODE and changes nothing; a
        matching code clears the identity's code and restrict keys. */
    method Verify(identity: Identity, verificationCode: Option<string>) returns (thrown: Option<ErrorCodeException>)
      modifies storage
      ensures thrown.None? <==>
        !IsNullOrEmpty(verificationCode) && verificationCode == old(storage.Get(Wrap(identity)))
      ensures thrown.Some? ==> thrown.value == INCORRECT_VERIFICATION_CODE.E() && storage.store == old(storage.store)
      ensures thrown.None? ==> (storage.store == Cleared(old(storage.store), Wrap(identity))
        && storage.Get(Wrap(identity)).None? && !storage.IsRequestRestricted(Wrap(identity)))
    {
      thrown := INCORRECT_VERIFICATION_CODE.ThrowIf(IsNullOrEmpty(verificationCode));
      if thrown.Some? {
        return;
      }
      var w := Wrap(identity);
      thrown := INCORRECT_VERIFICATION_CODE.ThrowIf(verificationCode != storage.Get(w));
      if thrown.Some? {
        return;
      }
      storage.Clear(w);
    }

    /** A code is good for one successful `verify`: the same call repeated is refused. */
    method VerifyTwice(identity: Identity, verificationCode: Option<string>) returns (first: Option<ErrorCodeException>, second: Option<ErrorCodeException>)
      modifies storage
      ensures second == Some(INCORRECT_VERIFICATION_CODE.E())
    {
      first := Verify(identity, verificationCode);
      second := Verify(identity, verificationCode);
    }

    /** Issuing a code to an identity the public constructor built restricts it, so asking
        again straight away is refused and the first code stays stored. */
    method RequestTwice(name: string, random1: nat, random2: nat) returns (first: Result<string, ServiceError>, second: Result<string, ServiceError>)
      requires random1 < MAXIMUM_CODE_EXCLUDE && random2 < MAXIMUM_CODE_EXCLUDE
      modifies storage, sender
      ensures first.Ok? ==> (second == Err(Raised(TOO_MANY_VERIFICATION_CODE_REQUEST.E()))
        && storage.Get(Wrap(NameAndRemoteAddr(name))) == Some(first.value))
    {
      var identity := NameAndRemoteAddr(name);
      first := NewVerificationCode(identity, random1, false);
      second := NewVerificationCode(identity, random2, false);
    }
  }
}
