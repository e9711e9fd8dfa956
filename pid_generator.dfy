/**
 * The PID generator (pidGenerator.js): a session counter, incremented on
 * each call and rendered in decimal, left-padded with '0' to three
 * characters.
 */
module PidGenerator {

  /** The width padStart pads to. */
  const Width: nat := 3

  predicate IsDigit(c: char) {
    '0' <= c <= '9'
  }

  predicate AllDigits(s: string) {
    forall i :: 0 <= i < |s| ==> IsDigit(s[i])
  }

  function DigitChar(d: nat): (c: char)
    requires d < 10
    ensures IsDigit(c) && c as int - '0' as int == d
  {
    (48 + d) as char
  }

  /** The decimal rendering of a non-negative integer (Number.prototype.toString). */
  function Decimal(n: nat): (s: string)
    ensures |s| >= 1 && AllDigits(s)
    ensures n > 0 ==> s[0] != '0'
    decreases n
  {
    if n < 10 then [DigitChar(n)] else Decimal(n / 10) + [DigitChar(n % 10)]
  }

  /** String.prototype.padStart with a one-character fill. */
  function PadStart(s: string, width: nat, fill: char): (r: string)
    ensures |r| == if |s| >= width then |s| else width
    ensures r[|r| - |s|..] == s
    ensures forall i :: 0 <= i < |r| - |s| ==> r[i] == fill
  {
    if |s| >= width then s else seq(width - |s|, _ => fill) + s
  }

  /** The PID for counter value n. */
  function Format(n: nat): string {
    PadStart(Decimal(n), Width, '0')
  }

  /** The number a string of decimal digits denotes. */
  function Value(s: string): nat
    requires AllDigits(s)
  {
    if |s| == 0 then 0 else Value(s[..|s| - 1]) * 10 + (s[|s| - 1] as int - '0' as int)
  }

  /** Reading the decimal rendering back gives the number. */
  lemma {:induction false} DecimalRoundTrip(n: nat)
    ensures Value(Decimal(n)) == n
    decreases n
  {
    if n >= 10 {
      DecimalRoundTrip(n / 10);
      var s := Decimal(n);
      assert s[..|s| - 1] == Decimal(n / 10);
    }
  }

  /** Leading zeros do not change the value. */
  lemma {:induction false} LeadingZeros(z: string, s: string)
    requires forall i :: 0 <= i < |z| ==> z[i] == '0'
    requires AllDigits(s)
    ensures AllDigits(z + s) && Value(z + s) == Value(s)
    decreases |s|
  {
    if |s| == 0 {
      assert z + s == z;
      ZerosValue(z);
    } else {
      LeadingZeros(z, s[..|s| - 1]);
      assert (z + s)[..|z + s| - 1] == z + s[..|s| - 1];
    }
  }

  /** A string of zeros denotes 0. */
  lemma {:induction false} ZerosValue(z: string)
    requires forall i :: 0 <= i < |z| ==> z[i] == '0'
    ensures AllDigits(z) && Value(z) == 0
    decreases |z|
  {
    if |z| > 0 {
      ZerosValue(z[..|z| - 1]);
    }
  }

  /** Reading a PID back gives its counter value. */
  lemma FormatRoundTrip(n: nat)
    ensures AllDigits(Format(n)) && Value(Format(n)) == n
  {
    var s := Decimal(n);
    var r := Format(n);
    var z := r[..|r| - |s|];
    assert r == z + s;
    LeadingZeros(z, s);
    DecimalRoundTrip(n);
  }

  /** Distinct counter values give distinct PIDs. */
  lemma FormatInjective(a: nat, b: nat)
    ensures Format(a) == Format(b) ==> a == b
  {
    FormatRoundTrip(a);
    FormatRoundTrip(b);
  }

  /** The decimal rendering of a number below 1000 has at most three digits. */
  lemma {:induction false} DecimalShort(n: nat)
    requires n < 1000
    ensures |Decimal(n)| <= 3
  {
    if n >= 10 {
      var m := n / 10;
      assert |Decimal(n)| == |Decimal(m)| + 1;
      if m >= 10 {
        assert |Decimal(m)| == |Decimal(m / 10)| + 1;
        assert m / 10 < 10;
      }
    }
  }

  /** Below 1000 every PID has exactly three characters; from 1000 on, padding adds nothing. */
  lemma FormatLength(n: nat)
    ensures n < 1000 ==> |Format(n)| == 3
    ensures |Format(n)| >= 3 && Format(n)[|Format(n)| - |Decimal(n)|..] == Decimal(n)
  {
    if n < 1000 {
      DecimalShort(n);
    }
  }

  /** The first PID after a reset. */
  lemma FirstPid()
    ensures Format(1) == "001"
  {
    assert Decimal(1) == "1";
  }

  /** The PIDs handed out by the first k calls after a reset: "001", "002", ... */
  function PidsSinceReset(k: nat): (r: seq<string>)
    ensures |r| == k
    ensures forall i :: 0 <= i < k ==> r[i] == Format(i + 1)
  {
    seq(k, i requires 0 <= i < k => Format(i + 1))
  }

  /** The PIDs since a reset are pairwise distinct and numerically increasing. */
  lemma SinceResetDistinct(k: nat)
    ensures var r := PidsSinceReset(k);
      forall i, j :: 0 <= i < j < k ==> r[i] != r[j] && AllDigits(r[i]) && AllDigits(r[j]) && Value(r[i]) < Value(r[j])
  {
    var r := PidsSinceReset(k);
    forall i, j | 0 <= i < j < k
      ensures r[i] != r[j] && AllDigits(r[i]) && AllDigits(r[j]) && Value(r[i]) < Value(r[j])
    {
      FormatRoundTrip(i + 1);
      FormatRoundTrip(j + 1);
    }
  }

  class Generator {
    var currentPid: nat

    /** The counter starts at 0. */
    constructor ()
      ensures currentPid == 0
    {
      currentPid := 0;
    }

    /** generatePID: increments the counter and returns it as a PID, whose value is the new counter. */
    method GeneratePid() returns (pid: string)
      modifies this
      ensures currentPid == old(currentPid) + 1
      ensures pid == Format(currentPid)
      ensures AllDigits(pid) && Value(pid) == currentPid
    {
      currentPid := currentPid + 1;
      pid := PadStart(Decimal(currentPid), Width, '0');
      FormatRoundTrip(currentPid);
    }

    /** resetPID. */
    method ResetPid()
      modifies this
      ensures currentPid == 0
    {
      currentPid := 0;
    }
  }
}
