/** The CAPTCHA challenge of bridgedb/captcha.py: a printer, its parser, and the expiry of
    what they exchange. */
module Captcha {
  import opened Common
  import opened Text
  import opened Schedule
  import opened Calendar

  type Byte = b: int | 0 <= b < 256

  /** UTF-8, RSA for one key pair, HMAC, URL-safe base64 and Unicode lower-casing, as the code
      calls them. */
  datatype Crypto = Crypto(
    encode: string -> seq<Byte>,
    decode: seq<Byte> -> Option<string>,
    encrypt: seq<Byte> -> seq<Byte>,
    decrypt: seq<Byte> -> Option<seq<Byte>>,
    hmac: (seq<Byte>, seq<Byte>) -> seq<Byte>,
    armour: seq<Byte> -> string,
    dearmour: string -> Option<seq<Byte>>,
    lower: string -> string)

  const HMAC_LENGTH := 20
  const TIMESTAMP_LENGTH := 12

  /** The ASCII bytes of a string of digits. */
  function DigitBytes(s: string): seq<Byte>
    requires AllDigits(s)
  {
    seq(|s|, i requires 0 <= i < |s| => s[i] as int)
  }

  /** What the libraries promise, and nothing about their secrecy. */
  ghost predicate Lawful(c: Crypto)
  {
    && (forall s :: c.decode(c.encode(s)) == Some(s))
    && (forall s, t :: AllDigits(s) ==> c.encode(s + t) == DigitBytes(s) + c.encode(t))
    && (forall x :: c.decrypt(c.encrypt(x)) == Some(x))
    && (forall k, x :: |c.hmac(k, x)| == HMAC_LENGTH)
    && (forall x :: c.dearmour(c.armour(x)) == Some(x))
    && (forall s, t :: AllDigits(s) ==> c.lower(s + t) == s + c.lower(t))
    && (forall s :: c.lower(s) == c.lower("") ==> s == "")
  }

  // ---------------------------------------------------------------- printing

  /** str.zfill for an unsigned number. */
  function ZeroFill(s: string, width: nat): (padded: string)
    ensures AllDigits(s) ==> AllDigits(padded)
  {
    Zeros(if |s| < width then width - |s| else 0) + s
  }

  function Zeros(n: nat): (z: string)
    ensures |z| == n && AllDigits(z)
  {
    seq(n, i => '0')
  }

  function Blob(c: Crypto, answer: string, now: nat): seq<Byte>
  {
    c.encode(ZeroFill(Decimal(now), TIMESTAMP_LENGTH) + answer)
  }

  /** createChallenge at the time now. */
  function CreateChallenge(c: Crypto, hmacKey: seq<Byte>, answer: string, now: nat): string
  {
    var encBlob := c.encrypt(Blob(c, answer, now));
    c.armour(c.hmac(hmacKey, encBlob) + encBlob)
  }

  // ---------------------------------------------------------------- checking

  /** check returns a bool, raises CaptchaExpired, or fails to print the date of expiry. */
  datatype Verdict = Accepted | Rejected | Expired | Unprintable

  function Take(s: seq<Byte>, n: nat): seq<Byte> { if |s| < n then s else s[..n] }

  function Drop(s: seq<Byte>, n: nat): seq<Byte> { if |s| < n then [] else s[n..] }

  const ZERO: Byte := '0' as int

  /** lstrip(b'0'). */
  function StripZeros(s: seq<Byte>): seq<Byte>
  {
    if |s| > 0 && s[0] == ZERO then StripZeros(s[1..]) else s
  }

  predicate AllDigitBytes(s: seq<Byte>)
  {
    forall i :: 0 <= i < |s| ==> '0' as int <= s[i] <= '9' as int
  }

  /** int(s) for bytes: None where it raises an error. */
  function ParseInt(s: seq<Byte>): Option<nat>
  {
    if |s| > 0 && AllDigitBytes(s) then
      Some(Value(seq(|s|, i requires 0 <= i < |s| => s[i] as char)))
    else None
  }

  /** What is left of a challenge once HMAC and encryption are undone: creation time, answer. */
  function Open(c: Crypto, hmacKey: seq<Byte>, challenge: string): Option<(nat, string)>
  {
    match c.dearmour(challenge)
    case None => None
    case Some(decoded) =>
      var encBlob := Drop(decoded, HMAC_LENGTH);
      if c.hmac(hmacKey, encBlob) != Take(decoded, HMAC_LENGTH) then None
      else match c.decrypt(encBlob)
        case None => None
        case Some(blob) =>
          match ParseInt(StripZeros(Take(blob, TIMESTAMP_LENGTH)))
          case None => None
          case Some(timestamp) =>
            match c.decode(Drop(blob, TIMESTAMP_LENGTH))
            case None => None
            case Some(answer) => Some((timestamp, answer))
  }

  /** The class attribute sched: half-hour intervals. */
  const SCHED_COUNT := 30

  function Check(c: Crypto, hmacKey: seq<Byte>, challenge: string, solution: string, now: int)
    : Verdict
  {
    if solution == "" then Rejected
    else match Open(c, hmacKey, challenge)
      case None => Rejected
      case Some((timestamp, answer)) =>
        match Next(SCHED_COUNT, Minute, timestamp as real)
        case None => Rejected
        case Some(then_) =>
          if now >= then_ then
            (if FromUnixSeconds(then_).None? then Unprintable else Expired)
          else if c.lower(solution) == c.lower(answer) then Accepted
          else Rejected
  }

  // ---------------------------------------------------------------- decimal lengths

  function Pow10(k: nat): nat { if k == 0 then 1 else 10 * Pow10(k - 1) }

  lemma {:induction false} DecimalLength(n: nat, k: nat)
    requires k >= 1
    ensures |Decimal(n)| <= k <==> n < Pow10(k)
  {
    if k == 1 {
      assert Pow10(1) == 10 * Pow10(0);
    } else if n < 10 {
      assert Pow10(k) == 10 * (10 * Pow10(k - 2));
      Pow10Positive(k - 2);
    } else {
      DecimalLength(n / 10, k - 1);
      assert |Decimal(n)| == |Decimal(n / 10)| + 1;
    }
  }

  lemma {:induction false} Pow10Positive(k: nat)
    ensures Pow10(k) >= 1
  {
    if k > 0 {
      Pow10Positive(k - 1);
    }
  }

  const TIMESTAMP_LIMIT := 1_000_000_000_000

  lemma TimestampFits(t: nat)
    ensures |Decimal(t)| <= TIMESTAMP_LENGTH <==> t < TIMESTAMP_LIMIT
  {
    DecimalLength(t, TIMESTAMP_LENGTH);
    assert Pow10(3) == 1000;
    assert Pow10(6) == 1000 * Pow10(3);
    assert Pow10(9) == 1000 * Pow10(6);
    assert Pow10(12) == 1000 * Pow10(9);
  }

  // ---------------------------------------------------------------- padding and stripping

  /** Stripping zeros undoes the padding of a number that does not start with one. */
  lemma {:induction false} StripUndoesFill(zeros: nat, s: string)
    requires AllDigits(s) && |s| > 0 && s[0] != '0'
    ensures StripZeros(DigitBytes(Zeros(zeros) + s)) == DigitBytes(s)
  {
    var padded := DigitBytes(Zeros(zeros) + s);
    if zeros == 0 {
      assert Zeros(0) + s == s;
    } else {
      StripUndoesFill(zeros - 1, s);
      assert padded[1..] == DigitBytes(Zeros(zeros - 1) + s);
    }
  }

  lemma {:induction false} StripOnlyZeros(zeros: nat)
    ensures StripZeros(DigitBytes(Zeros(zeros))) == []
  {
    if zeros > 0 {
      StripOnlyZeros(zeros - 1);
      assert DigitBytes(Zeros(zeros))[1..] == DigitBytes(Zeros(zeros - 1));
    }
  }

  /** Bytes of digits are read back as the number they print. */
  lemma ParseDigitBytes(s: string)
    requires AllDigits(s) && |s| > 0
    ensures ParseInt(DigitBytes(s)) == Some(Value(s))
  {
    var b := DigitBytes(s);
    assert seq(|b|, i requires 0 <= i < |b| => b[i] as char) == s;
  }

  /** The first twelve bytes of a blob are the timestamp when it has twelve digits or fewer. */
  lemma BlobParts(c: Crypto, answer: string, t: nat)
    requires Lawful(c) && |Decimal(t)| <= TIMESTAMP_LENGTH
    ensures
      var padded := ZeroFill(Decimal(t), TIMESTAMP_LENGTH);
      var blob := Blob(c, answer, t);
      |padded| == TIMESTAMP_LENGTH &&
      Take(blob, TIMESTAMP_LENGTH) == DigitBytes(padded) &&
      Drop(blob, TIMESTAMP_LENGTH) == c.encode(answer)
  {
    var padded := ZeroFill(Decimal(t), TIMESTAMP_LENGTH);
    assert Blob(c, answer, t) == DigitBytes(padded) + c.encode(answer);
  }

  /** A longer timestamp spills its last digits into the answer. */
  lemma BlobSpills(c: Crypto, answer: string, t: nat)
    requires Lawful(c) && |Decimal(t)| > TIMESTAMP_LENGTH
    ensures
      var d := Decimal(t);
      var blob := Blob(c, answer, t);
      Take(blob, TIMESTAMP_LENGTH) == DigitBytes(d[..TIMESTAMP_LENGTH]) &&
      Drop(blob, TIMESTAMP_LENGTH) == c.encode(d[TIMESTAMP_LENGTH..] + answer)
  {
    var d := Decimal(t);
    var head, tail := d[..TIMESTAMP_LENGTH], d[TIMESTAMP_LENGTH..];
    assert Zeros(0) + d == d;
    assert d + answer == head + (tail + answer);
    assert Blob(c, answer, t) == DigitBytes(head) + c.encode(tail + answer);
  }

  // ---------------------------------------------------------------- the round trip

  /** Opening a challenge gives back the blob that was encrypted. */
  lemma OpenReachesBlob(c: Crypto, hmacKey: seq<Byte>, answer: string, t: nat)
    requires Lawful(c)
    ensures
      var blob := Blob(c, answer, t);
      Open(c, hmacKey, CreateChallenge(c, hmacKey, answer, t)) ==
        match ParseInt(StripZeros(Take(blob, TIMESTAMP_LENGTH)))
        case None => None
        case Some(timestamp) =>
          match c.decode(Drop(blob, TIMESTAMP_LENGTH))
          case None => None
          case Some(a) => Some((timestamp, a))
  {
    hide Blob, StripZeros, ParseInt;
    var encBlob := c.encrypt(Blob(c, answer, t));
    var h := c.hmac(hmacKey, encBlob);
    var decoded := h + encBlob;
    assert Take(decoded, HMAC_LENGTH) == h;
    assert Drop(decoded, HMAC_LENGTH) == encBlob;
  }

  /** What opens carries its HMAC in front: exactly those challenges open that are the HMAC under the key
      followed by the encryption of a blob with a readable time. */
  lemma OpenExactly(c: Crypto, hmacKey: seq<Byte>, challenge: string, t: nat, answer: string)
    requires Lawful(c)
    ensures Open(c, hmacKey, challenge) == Some((t, answer)) <==>
      exists encBlob: seq<Byte> ::
        && c.dearmour(challenge) == Some(c.hmac(hmacKey, encBlob) + encBlob)
        && c.decrypt(encBlob).Some?
        && ParseInt(StripZeros(Take(c.decrypt(encBlob).value, 12))) == Some(t)
        && c.decode(Drop(c.decrypt(encBlob).value, 12)) == Some(answer)
  {
    hide ParseInt, StripZeros;
    var decoded := c.dearmour(challenge);
    if decoded.Some? {
      var encBlob := Drop(decoded.value, HMAC_LENGTH);
      assert |decoded.value| >= HMAC_LENGTH ==> decoded.value == Take(decoded.value, HMAC_LENGTH) + encBlob;
      forall other: seq<Byte> | decoded.value == c.hmac(hmacKey, other) + other
        ensures other == encBlob
      {
        assert Drop(c.hmac(hmacKey, other) + other, HMAC_LENGTH) == other;
      }
    }
  }

  /** With any other HMAC in front, and for the empty solution, nothing is accepted. */
  lemma ForgedIsRejected(c: Crypto, hmacKey: seq<Byte>, mac: seq<Byte>, encBlob: seq<Byte>, solution: string,
                         now: int)
    requires Lawful(c) && |mac| == HMAC_LENGTH
    requires mac != c.hmac(hmacKey, encBlob) || solution == ""
    ensures Check(c, hmacKey, c.armour(mac + encBlob), solution, now) == Rejected
  {
    assert Take(mac + encBlob, HMAC_LENGTH) == mac && Drop(mac + encBlob, HMAC_LENGTH) == encBlob;
  }

  /** Creation times of one to twelve digits come back together with the answer. */
  lemma OpenOfCreate(c: Crypto, hmacKey: seq<Byte>, answer: string, t: nat)
    requires Lawful(c) && 1 <= t < TIMESTAMP_LIMIT
    ensures Open(c, hmacKey, CreateChallenge(c, hmacKey, answer, t)) == Some((t, answer))
  {
    OpenReachesBlob(c, hmacKey, answer, t);
    TimestampFits(t);
    BlobParts(c, answer, t);
    StripUndoesFill(TIMESTAMP_LENGTH - |Decimal(t)|, Decimal(t));
    ParseDigitBytes(Decimal(t));
    ValueOfDecimal(t);
  }

  /** At time zero the timestamp is stripped away completely and nothing can be opened. */
  lemma OpenAtZero(c: Crypto, hmacKey: seq<Byte>, answer: string)
    requires Lawful(c)
    ensures Open(c, hmacKey, CreateChallenge(c, hmacKey, answer, 0)) == None
  {
    OpenReachesBlob(c, hmacKey, answer, 0);
    BlobParts(c, answer, 0);
    assert ZeroFill(Decimal(0), TIMESTAMP_LENGTH) == Zeros(TIMESTAMP_LENGTH);
    StripOnlyZeros(TIMESTAMP_LENGTH);
  }

  /** From 10^12 on, the answer that comes back starts with digits of the time. */
  lemma OpenAfterLimit(c: Crypto, hmacKey: seq<Byte>, answer: string, t: nat)
    returns (spilled: string)
    requires Lawful(c) && t >= TIMESTAMP_LIMIT
    ensures AllDigits(spilled) && |spilled| > 0
    ensures
      var found := Open(c, hmacKey, CreateChallenge(c, hmacKey, answer, t));
      found.Some? && found.value.1 == spilled + answer
  {
    OpenReachesBlob(c, hmacKey, answer, t);
    TimestampFits(t);
    spilled := Decimal(t)[TIMESTAMP_LENGTH..];
    BlobSpills(c, answer, t);
    var head := Decimal(t)[..TIMESTAMP_LENGTH];
    assert Zeros(0) + head == head;
    StripUndoesFill(0, head);
    ParseDigitBytes(head);
  }

  /** The end of the half-hour in which a challenge was created. */
  function EndOfHalfHour(t: int): int { (t / 1800 + 1) * 1800 }

  lemma NextHalfHour(t: int)
    ensures Next(SCHED_COUNT, Minute, t as real) == Some(EndOfHalfHour(t))
  {
    CeilOfInteger(t);
  }

  /** What a user of the two functions expects of a challenge created at time t. */
  ghost predicate RoundTrips(c: Crypto, hmacKey: seq<Byte>, answer: string, t: nat)
  {
    forall solution: string, now: int ::
      Check(c, hmacKey, CreateChallenge(c, hmacKey, answer, t), solution, now) == Accepted <==>
      solution != "" && c.lower(solution) == c.lower(answer) && now < EndOfHalfHour(t)
  }

  /** The round trip works exactly for times from 1 to 10^12 - 1; at time 0 nothing is accepted,
      which is right for an empty answer only. */
  lemma RoundTripExactly(c: Crypto, hmacKey: seq<Byte>, answer: string, t: nat)
    requires Lawful(c)
    ensures RoundTrips(c, hmacKey, answer, t) <==> t < TIMESTAMP_LIMIT && (t >= 1 || answer == "")
  {
    hide Open, CreateChallenge, Next, Lawful;
    var challenge := CreateChallenge(c, hmacKey, answer, t);
    assert t < EndOfHalfHour(t);
    if t == 0 {
      OpenAtZero(c, hmacKey, answer);
      NothingLowersToNothing(c);
      assert Check(c, hmacKey, challenge, answer, t) != Accepted;
    } else if t >= TIMESTAMP_LIMIT {
      AnswerSpills(c, hmacKey, answer, t);
    } else {
      OpenOfCreate(c, hmacKey, answer, t);
      NextHalfHour(t);
    }
  }

  lemma NothingLowersToNothing(c: Crypto)
    requires Lawful(c)
    ensures forall s :: s != "" ==> c.lower(s) != c.lower("")
  {
  }

  /** After the limit the time's last digits, put before the answer, are accepted in its place. */
  lemma AnswerSpills(c: Crypto, hmacKey: seq<Byte>, answer: string, t: nat)
    requires Lawful(c) && t >= TIMESTAMP_LIMIT
    ensures !RoundTrips(c, hmacKey, answer, t)
  {
    hide Open, CreateChallenge, Lawful;
    var challenge := CreateChallenge(c, hmacKey, answer, t);
    var spilled := OpenAfterLimit(c, hmacKey, answer, t);
    var timestamp := Open(c, hmacKey, challenge).value.0;
    NextHalfHour(timestamp);
    SpilledAnswerDiffers(c, spilled, answer);
    var now := EndOfHalfHour(timestamp) - 1;
    assert Check(c, hmacKey, challenge, spilled + answer, now) == Accepted;
  }

  lemma SpilledAnswerDiffers(c: Crypto, digits: string, answer: string)
    requires Lawful(c) && AllDigits(digits) && |digits| > 0
    ensures c.lower(digits + answer) != c.lower(answer)
  {
    assert |c.lower(digits + answer)| == |digits| + |c.lower(answer)|;
  }

  /** Whatever is accepted was created less than half an hour ago, and a right solution that is
      too late raises the expiry error instead of returning False. */
  lemma AcceptedIsFresh(c: Crypto, hmacKey: seq<Byte>, answer: string, t: nat,
                        solution: string, now: int)
    requires Lawful(c) && 1 <= t < TIMESTAMP_LIMIT && solution != ""
    ensures
      var verdict := Check(c, hmacKey, CreateChallenge(c, hmacKey, answer, t), solution, now);
      && (verdict == Accepted ==> now - t < 1800)
      && (verdict in {Expired, Unprintable} <==> now >= EndOfHalfHour(t))
      && (EndOfHalfHour(t) < START_OF_LAST_YEAR ==> verdict != Unprintable)
      && (verdict == Expired ==> FromUnixSeconds(EndOfHalfHour(t)).Some?)
      && (now - t >= 1800 ==> verdict in {Expired, Unprintable})
  {
    hide Open, CreateChallenge, Next, Lawful, FromUnixSeconds;
    OpenOfCreate(c, hmacKey, answer, t);
    NextHalfHour(t);
    if EndOfHalfHour(t) < START_OF_LAST_YEAR {
      DatesExist(EndOfHalfHour(t));
    }
  }
}
