/**
 * The SMS boundary: a fixed ordered pool of virtual numbers and an outbox
 * that every send appends to. Delivery itself is not modelled.
 */
module Messaging {
  import opened UserDomain
  import opened Collections

  /** One text message, from a virtual or personal number to another. */
  datatype Sms = Sms(from: PhoneNumber, to: PhoneNumber, body: string)

  class SmsService {
    /** The numbers available for group assignment, in the order they are offered. */
    const pool: seq<PhoneNumber>
    /** Every message sent so far, oldest first. */
    var outbox: seq<Sms>

    constructor (pool: seq<PhoneNumber>)
      ensures this.pool == pool && outbox == []
    {
      this.pool := pool;
      outbox := [];
    }

    method SendSms(fromPhoneNumber: PhoneNumber, toPhoneNumber: PhoneNumber, message: string)
      modifies this
      ensures outbox == old(outbox) + [Sms(fromPhoneNumber, toPhoneNumber, message)]
    {
      outbox := outbox + [Sms(fromPhoneNumber, toPhoneNumber, message)];
    }
  }

  /** The two numbers the Twilio service offers. */
  const TwilioPool: seq<PhoneNumber> := [PhoneNumber("+12345678290"), PhoneNumber("+19187654321")]

  /** A plus, a digit and at least one more digit, 10 to 15 characters in all, is a valid phone number. */
  lemma PlusDigitsAreValid(s: string)
    requires 10 <= |s| <= 15 && s[0] == '+' && IsDigit(s[1]) && AllDigits(s[2..])
    ensures PhoneNumber(s).Valid()
  {
  }

  /** The deployed pool holds two distinct, valid phone numbers. */
  lemma TwilioPoolIsWellFormed()
    ensures |TwilioPool| == 2 && NoDuplicates(TwilioPool)
    ensures forall i :: 0 <= i < |TwilioPool| ==> TwilioPool[i].Valid()
  {
    PlusDigitsAreValid(TwilioPool[0].root);
    PlusDigitsAreValid(TwilioPool[1].root);
  }
}
