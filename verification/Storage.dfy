/** The tables of bridgedb/Storage.py that the distributors read and write. Each table is a map
    from its primary key; every method is one committed statement. */
module Storage {
  import opened Common

  type Fingerprint = string
  const HEX_ID_LEN := 40

  /** strToTime(timeToStr(t)): times are kept with minute precision. Printed times of four-digit
      years compare as the numbers do. */
  function Minute(t: real): int { t.Floor - t.Floor % 60 }

  lemma MinuteBounds(t: real)
    ensures Minute(t) as real <= t < (Minute(t) + 60) as real && Minute(t) % 60 == 0
  {
  }

  lemma MinuteMonotone(t: real, u: real)
    requires t <= u
    ensures Minute(t) <= Minute(u)
  {
    var a, b := t.Floor, u.Floor;
    assert a <= b;
    assert a - a % 60 == 60 * (a / 60) && b - b % 60 == 60 * (b / 60);
  }

  const DEFAULT_POOL := "unallocated"

  /** A row of the table Bridges. */
  datatype BridgeRow = BridgeRow(distributor: string, firstSeen: int, lastSeen: int)

  /** The rows that DELETE ... WHERE column < bound leaves. */
  function NotBefore(table: map<string, int>, bound: int): map<string, int>
  {
    map k | k in table && table[k] >= bound :: table[k]
  }

  class Database {
    var bridges: map<Fingerprint, BridgeRow>
    var emailed: map<string, int>
    var warned: map<string, int>

    constructor ()
      ensures bridges == map[] && emailed == map[] && warned == map[]
    {
      bridges, emailed, warned := map[], map[], map[];
    }

    /** The stored distributor, when it is still one of the valid rings. */
    method GetBridgeDistributor(fingerprint: Fingerprint, validRings: seq<string>)
      returns (distributor: Option<string>)
      ensures distributor ==
        if fingerprint in bridges && bridges[fingerprint].distributor in validRings
        then Some(bridges[fingerprint].distributor) else None
    {
      distributor := None;
      if fingerprint in bridges {
        if bridges[fingerprint].distributor in validRings {
          distributor := Some(bridges[fingerprint].distributor);
        }
      }
    }

    /** Records the ring of a bridge, new or known, and returns it. */
    method InsertBridgeAndGetRing(fingerprint: Fingerprint, setRing: string, seenAt: real,
                                  validRings: seq<string>) returns (ring: string)
      requires |fingerprint| == HEX_ID_LEN
      modifies this`bridges
      ensures ring == if setRing in validRings then setRing else "unallocated"
      ensures bridges == old(bridges)[fingerprint :=
        BridgeRow(ring,
                  if fingerprint in old(bridges) then old(bridges)[fingerprint].firstSeen
                  else Minute(seenAt),
                  Minute(seenAt))]
    {
      var t := Minute(seenAt);
      ring := setRing;
      if ring !in validRings {
        ring := DEFAULT_POOL;
      }
      if fingerprint in bridges {
        bridges := bridges[fingerprint := bridges[fingerprint].(distributor := ring, lastSeen := t)];
      } else {
        bridges := bridges[fingerprint := BridgeRow(ring, t, t)];
      }
    }

    method GetEmailTime(address: string) returns (time: Option<int>)
      ensures time == if address in emailed then Some(emailed[address]) else None
    {
      time := if address in emailed then Some(emailed[address]) else None;
    }

    /** INSERT OR REPLACE. */
    method SetEmailTime(address: string, whenMailed: real)
      modifies this`emailed
      ensures emailed == old(emailed)[address := Minute(whenMailed)]
    {
      emailed := emailed[address := Minute(whenMailed)];
    }

    method CleanEmailedBridges(expireBefore: real)
      modifies this`emailed
      ensures emailed == NotBefore(old(emailed), Minute(expireBefore))
    {
      emailed := NotBefore(emailed, Minute(expireBefore));
    }

    method GetWarnedEmail(address: string) returns (wasWarned: bool)
      ensures wasWarned <==> address in warned
    {
      wasWarned := address in warned;
    }

    /** INSERT, which fails on an existing primary key, or DELETE, which never fails. */
    method SetWarnedEmail(address: string, warn: bool, whenWarned: real) returns (conflict: bool)
      modifies this`warned
      ensures conflict <==> warn && address in old(warned)
      ensures warned ==
        if conflict then old(warned)
        else if warn then old(warned)[address := Minute(whenWarned)]
        else old(warned) - {address}
    {
      conflict := warn && address in warned;
      if !conflict {
        warned := if warn then warned[address := Minute(whenWarned)] else warned - {address};
      }
    }

    method CleanWarnedEmails(expireBefore: real)
      modifies this`warned
      ensures warned == NotBefore(old(warned), Minute(expireBefore))
    {
      warned := NotBefore(warned, Minute(expireBefore));
    }
  }
}
