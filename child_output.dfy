/**
 * Validation of what one measuring child process reports: the part of
 * `getModuleDuration` (breqd.js:28-42) that runs after the child has exited.
 * The child prints the load time of one module as a decimal integer on its
 * standard error stream.
 */
module ChildOutput {
  import opened Wrappers

  /** `Number.MAX_SAFE_INTEGER`, 2^53 - 1. */
  const MaxSafeInteger: nat := 0x1F_FFFF_FFFF_FFFF

  /** What `spawnSync` reports about a finished child: its exit status
      (`None` for null, when a signal ended it), the signal that ended it
      (`None` for null) and its decoded standard error output. */
  datatype ChildResult = ChildResult(status: Option<int>, signal: Option<string>, stderr: string)

  /** Why a measurement failed. */
  datatype MeasureError =
      /** non-zero exit status or a terminating signal (breqd.js:28-30) */
    | ChildFailed(status: Option<int>, signal: Option<string>, stderr: string)
      /** no digit in the output (breqd.js:33-35) */
    | NoOutput
      /** the digits do not denote a safe integer (breqd.js:37-40) */
    | NotSafeInteger(output: string)

  predicate IsDigit(c: char)
  {
    '0' <= c <= '9'
  }

  /** `s.replace(/[^0-9]/g, "")`: the digits of `s`, in order. */
  function Digits(s: string): (r: string)
    ensures forall i :: 0 <= i < |r| ==> IsDigit(r[i])
  {
    if s == [] then []
    else if IsDigit(s[0]) then [s[0]] + Digits(s[1..])
    else Digits(s[1..])
  }

  /** The stripping keeps exactly the digits of `s`, and leaves a string of
      digits unchanged. */
  lemma {:induction false} DigitsKeepsDigits(s: string)
    ensures |Digits(s)| <= |s|
    ensures forall c :: c in Digits(s) <==> c in s && IsDigit(c)
    ensures (forall i :: 0 <= i < |s| ==> IsDigit(s[i])) ==> Digits(s) == s
  {
    if s != [] {
      DigitsKeepsDigits(s[1..]);
      assert s == [s[0]] + s[1..];
    }
  }

  /** The stripping distributes over concatenation. */
  lemma {:induction false} DigitsAppend(a: string, b: string)
    ensures Digits(a + b) == Digits(a) + Digits(b)
  {
    if a == [] {
      assert a + b == b;
    } else {
      assert (a + b)[0] == a[0];
      assert (a + b)[1..] == a[1..] + b;
      DigitsAppend(a[1..], b);
    }
  }

  /** The value of a string of decimal digits, read left to right (what
      `Number` gives for such a string); it is 0 exactly when every digit is
      `0`, the empty string included. */
  function DecimalValue(ds: string): (v: nat)
    requires forall i :: 0 <= i < |ds| ==> IsDigit(ds[i])
    ensures v == 0 <==> forall i :: 0 <= i < |ds| ==> ds[i] == '0'
  {
    if ds == [] then 0
    else DecimalValue(ds[..|ds| - 1]) * 10 + DigitValue(ds[|ds| - 1])
  }

  function DigitValue(c: char): (v: nat)
    requires IsDigit(c)
  {
    c as int - '0' as int
  }

  /** The decimal representation of `n`, without leading zeros: what the
      child prints for its measured duration. */
  function Decimal(n: nat): (ds: string)
    ensures |ds| > 0
    ensures forall i :: 0 <= i < |ds| ==> IsDigit(ds[i])
    ensures |ds| > 1 ==> ds[0] != '0'
  {
    var last := ('0' as int + n % 10) as char;
    if n < 10 then [last] else Decimal(n / 10) + [last]
  }

  /** Reading back a printed number gives the number. */
  lemma {:induction false} DecimalRoundTrip(n: nat)
    ensures DecimalValue(Decimal(n)) == n
  {
    var ds := Decimal(n);
    if n >= 10 {
      DecimalRoundTrip(n / 10);
      assert ds[..|ds| - 1] == Decimal(n / 10);
    }
  }

  /** The checks `getModuleDuration` makes on the finished child, in order:
      the exit status and signal, the presence of digits, and the safe-integer
      test; on success, the measured duration. */
  function ParseModuleDuration(child: ChildResult): (r: Result<nat, MeasureError>)
    ensures r.Success? <==>
      child.status == Some(0) && child.signal.None? &&
      Digits(child.stderr) != [] && DecimalValue(Digits(child.stderr)) <= MaxSafeInteger
    ensures r.Success? ==> r.value <= MaxSafeInteger
    ensures r.Success? ==> r.value == DecimalValue(Digits(child.stderr))
    ensures child.status != Some(0) || child.signal.Some? ==>
      r == Failure(ChildFailed(child.status, child.signal, child.stderr))
  {
    if child.status != Some(0) || child.signal.Some? then
      Failure(ChildFailed(child.status, child.signal, child.stderr))
    else
      var output := Digits(child.stderr);
      if |output| == 0 then Failure(NoOutput)
      else
        var duration := DecimalValue(output);
        if duration > MaxSafeInteger then Failure(NotSafeInteger(output))
        else Success(duration)
  }

  /** What the measuring child writes for a duration `d` (its number and a
      newline) is read back as `d` whenever `d` is a safe integer. */
  lemma ParseReadsPrintedDuration(d: nat)
    requires d <= MaxSafeInteger
    ensures ParseModuleDuration(ChildResult(Some(0), None, Decimal(d) + "\n")) == Success(d)
  {
    var ds := Decimal(d);
    var child := ChildResult(Some(0), None, ds + "\n");
    assert Digits(child.stderr) == ds by {
      DigitsAppend(ds, "\n");
      assert Digits("\n") == [];
      DigitsKeepsDigits(ds);
    }
    DecimalRoundTrip(d);
  }
}
