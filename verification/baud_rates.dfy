/** Baud rates the link knows: the ascending candidate list scanned by
    detection and interval suggestion, and the rate-to-device-code tables of
    the change-baud command. */
module BaudRates {
  import opened Bytes

  const Candidates: seq<int> := [9600, 19200, 38400, 57600, 115200]

  /** The table in models/gauge_reader.py: seven rates. */
  const DeviceCodes: map<int, Word> := map[
    2400 := 0x0024, 4800 := 0x0048, 9600 := 0x0096, 19200 := 0x0192,
    38400 := 0x0384, 57600 := 0x0576, 115200 := 0x1152]

  /** The table in test.py: the five candidates only. */
  const StandaloneCodes: map<int, Word> := map[
    9600 := 0x0096, 19200 := 0x0192, 38400 := 0x0384,
    57600 := 0x0576, 115200 := 0x1152]

  /** A number written in binary-coded decimal, one digit per nibble. */
  function Bcd(n: nat): nat {
    if n == 0 then 0 else 16 * Bcd(n / 10) + n % 10
  }

  lemma CandidatesAscending()
    ensures forall i, j :: 0 <= i < j < |Candidates| ==> Candidates[i] < Candidates[j]
  {
  }

  /** The device code of a rate is the rate in hundreds written in BCD (which
      makes the table injective: see `DeviceCodesInjective`). */
  lemma DeviceCodesAreBcd()
    ensures forall r :: r in DeviceCodes ==> r > 0 && r % 100 == 0 && DeviceCodes[r] == Bcd(r / 100)
  {
    forall r | r in DeviceCodes
      ensures r > 0 && r % 100 == 0 && DeviceCodes[r] == Bcd(r / 100)
    {
      CodeIsBcd(r);
    }
  }

  lemma CodeIsBcd(r: int)
    requires r in DeviceCodes
    ensures r > 0 && r % 100 == 0 && DeviceCodes[r] == Bcd(r / 100)
  {
    if r == 2400 { assert Bcd(24) == 0x24; }
    else if r == 4800 { assert Bcd(48) == 0x48; }
    else if r == 9600 { assert Bcd(96) == 0x96; }
    else if r == 19200 { assert Bcd(192) == 0x192; }
    else if r == 38400 { assert Bcd(384) == 0x384; }
    else if r == 57600 { assert Bcd(576) == 0x576; }
    else {
      assert r == 115200;
      assert Bcd(1152) == 0x1152;
    }
  }

  /** Distinct numbers have distinct BCD forms: the low nibble is the last
      decimal digit and the rest is the BCD form of the remaining digits. */
  lemma {:induction false} BcdInjective(a: nat, b: nat)
    requires Bcd(a) == Bcd(b)
    ensures a == b
    decreases a + b
  {
    if a != 0 || b != 0 {
      assert Bcd(a) % 16 == a % 10 && Bcd(a) / 16 == Bcd(a / 10);
      assert Bcd(b) % 16 == b % 10 && Bcd(b) / 16 == Bcd(b / 10);
      BcdInjective(a / 10, b / 10);
    }
  }

  /** No two rates share a device code, so the device can tell which rate a
      change-baud request asks for. */
  lemma DeviceCodesInjective(r1: int, r2: int)
    requires r1 in DeviceCodes && r2 in DeviceCodes
    ensures DeviceCodes[r1] == DeviceCodes[r2] ==> r1 == r2
  {
    CodeIsBcd(r1);
    CodeIsBcd(r2);
    if DeviceCodes[r1] == DeviceCodes[r2] {
      BcdInjective(r1 / 100, r2 / 100);
    }
  }

  /** The standalone table is the device table restricted to the candidates. */
  lemma StandaloneTableAgrees()
    ensures forall r :: r in StandaloneCodes <==> r in Candidates
    ensures forall r :: r in StandaloneCodes ==> r in DeviceCodes && StandaloneCodes[r] == DeviceCodes[r]
  {
  }
}
