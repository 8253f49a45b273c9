/**
 * The clock-drift line of the time display: `formatDrift` turns a whole
 * number of seconds of drift into "Clock is <m>m <s>s ahead|behind", and the
 * display shows it only when the drift is known and more than one second;
 * otherwise it shows "Synchronization optimal".
 */
module TimeDisplay {

  datatype Option<T> = None | Some(value: T)

  const Prefix: string := "Clock is "
  const Ahead: string := "ahead"
  const Behind: string := "behind"
  const SyncOptimal: string := "Synchronization optimal"

  function Abs(x: int): nat { if x < 0 then -x else x }

  predicate IsDigit(c: char) { '0' <= c <= '9' }

  predicate AllDigits(s: string) {
    forall i :: 0 <= i < |s| ==> IsDigit(s[i])
  }

  /** The decimal text of a non-negative integer, as a template literal renders it. */
  function DecimalString(n: nat): (s: string)
    ensures |s| >= 1 && AllDigits(s)
    decreases n
  {
    if n < 10 then [(48 + n) as char]
    else DecimalString(n / 10) + [(48 + n % 10) as char]
  }

  /** The value of a string of decimal digits. */
  function DecimalValue(s: string): nat
    requires AllDigits(s)
    decreases |s|
  {
    if s == [] then 0
    else DecimalValue(s[..|s| - 1]) * 10 + (s[|s| - 1] as int - 48)
  }

  lemma {:induction false} DecimalRoundTrip(n: nat)
    ensures DecimalValue(DecimalString(n)) == n
    decreases n
  {
    if n >= 10 {
      var s := DecimalString(n);
      assert s[..|s| - 1] == DecimalString(n / 10);
      DecimalRoundTrip(n / 10);
    }
  }

  function ParseDecimal(s: string): Option<nat> {
    if |s| > 0 && AllDigits(s) then Some(DecimalValue(s)) else None
  }

  /** Whole minutes and remaining seconds of a drift's magnitude. */
  function SplitSeconds(totalSeconds: int): (parts: (nat, nat))
    ensures parts.0 * 60 + parts.1 == Abs(totalSeconds)
    ensures parts.1 < 60
  {
    (Abs(totalSeconds) / 60, Abs(totalSeconds) % 60)
  }

  /** `driftStr` of formatDrift: "<m>m <s>s" when there are whole minutes, else "<s>s". */
  function Amount(magnitude: nat): (driftStr: string)
    ensures |driftStr| >= 2 && driftStr[|driftStr| - 1] == 's'
  {
    var parts := SplitSeconds(magnitude);
    (if parts.0 > 0 then DecimalString(parts.0) + "m " else "") + DecimalString(parts.1) + "s"
  }

  /** `formatDrift(totalSeconds)`. */
  function FormatDrift(totalSeconds: int): (msg: string)
    ensures |Prefix| <= |msg| && msg[..|Prefix|] == Prefix
  {
    Prefix + Amount(Abs(totalSeconds)) + " " + (if totalSeconds > 0 then Ahead else Behind)
  }

  /** Index of the first `c` in s, or |s| when there is none. */
  function IndexOf(s: string, c: char): (i: nat)
    ensures i <= |s|
    ensures i < |s| ==> s[i] == c
    decreases |s|
  {
    if s == [] then 0
    else if s[0] == c then 0
    else 1 + IndexOf(s[1..], c)
  }

  /** Reads "<m>m <s>s" or "<s>s" back as a number of seconds. */
  function ParseAmount(amount: string): Option<nat> {
    if |amount| == 0 || amount[|amount| - 1] != 's' then None
    else ParseMinutesSeconds(amount[..|amount| - 1])
  }

  /** Reads "<m>m <s>" or "<s>" back as a number of seconds. */
  function ParseMinutesSeconds(body: string): Option<nat> {
    var j := IndexOf(body, 'm');
    if j == |body| then ParseDecimal(body)
    else if j + 1 < |body| && body[j + 1] == ' ' then
      CombineMinutes(ParseDecimal(body[..j]), ParseDecimal(body[j + 2..]))
    else None
  }

  function CombineMinutes(minutes: Option<nat>, seconds: Option<nat>): Option<nat> {
    if minutes.Some? && seconds.Some? then Some(minutes.value * 60 + seconds.value) else None
  }

  /** Reads a drift message back as a signed number of seconds. */
  function ParseDrift(msg: string): Option<int> {
    if |msg| < |Prefix| || msg[..|Prefix|] != Prefix then None
    else
      var rest := msg[|Prefix|..];
      var na, nb := |Ahead| + 1, |Behind| + 1;
      if |rest| >= na && rest[|rest| - na..] == " " + Ahead then
        match ParseAmount(rest[..|rest| - na])
        case Some(a) => Some(a)
        case None => None
      else if |rest| >= nb && rest[|rest| - nb..] == " " + Behind then
        match ParseAmount(rest[..|rest| - nb])
        case Some(a) => Some(-(a as int))
        case None => None
      else None
  }

  lemma {:induction false} IndexOfAfterDigits(digits: string, tail: string)
    requires AllDigits(digits) && |tail| > 0 && tail[0] == 'm'
    ensures IndexOf(digits + tail, 'm') == |digits|
    decreases |digits|
  {
    if digits != [] {
      assert (digits + tail)[1..] == digits[1..] + tail;
      IndexOfAfterDigits(digits[1..], tail);
    }
  }

  lemma {:induction false} IndexOfDigits(digits: string)
    requires AllDigits(digits)
    ensures IndexOf(digits, 'm') == |digits|
    decreases |digits|
  {
    if digits != [] {
      IndexOfDigits(digits[1..]);
    }
  }

  lemma ParseBodyWithMinutes(mins: string, secs: string)
    requires |mins| > 0 && AllDigits(mins) && |secs| > 0 && AllDigits(secs)
    ensures ParseMinutesSeconds(mins + ("m " + secs)) ==
      CombineMinutes(ParseDecimal(mins), ParseDecimal(secs))
  {
    var body := mins + ("m " + secs);
    IndexOfAfterDigits(mins, "m " + secs);
    var j := |mins|;
    assert body[j + 1] == ' ';
    assert body[..j] == mins;
    assert body[j + 2..] == secs;
  }

  lemma ParseMinutesAndSeconds(mins: string, secs: string)
    requires |mins| > 0 && AllDigits(mins) && |secs| > 0 && AllDigits(secs)
    ensures ParseAmount(mins + "m " + secs + "s") ==
      CombineMinutes(ParseDecimal(mins), ParseDecimal(secs))
  {
    var body := mins + ("m " + secs);
    assert mins + "m " + secs + "s" == body + "s";
    assert (body + "s")[..|body|] == body;
    ParseBodyWithMinutes(mins, secs);
  }

  lemma CombineSplit(a: nat)
    ensures CombineMinutes(Some(a / 60), Some(a % 60)) == Some(a)
  {
  }

  lemma ParseSecondsOnly(secs: string)
    requires |secs| > 0 && AllDigits(secs)
    ensures ParseAmount(secs + "s") == Some(DecimalValue(secs))
  {
    assert (secs + "s")[..|secs|] == secs;
    IndexOfDigits(secs);
  }

  /** The magnitude text of formatDrift reads back as the magnitude. */
  lemma AmountRoundTrip(a: nat)
    ensures ParseAmount(Amount(a)) == Some(a)
  {
    var secs := DecimalString(a % 60);
    DecimalRoundTrip(a % 60);
    if a / 60 > 0 {
      var mins := DecimalString(a / 60);
      assert Amount(a) == mins + "m " + secs + "s";
      ParseMinutesAndSeconds(mins, secs);
      DecimalRoundTrip(a / 60);
      CombineSplit(a);
    } else {
      assert Amount(a) == secs + "s";
      ParseSecondsOnly(secs);
    }
  }

  /** formatDrift loses nothing: the message reads back as the drift, sign included. */
  lemma FormatDriftRoundTrip(totalSeconds: int)
    ensures ParseDrift(FormatDrift(totalSeconds)) == Some(totalSeconds)
  {
    var amount := Amount(Abs(totalSeconds));
    AmountRoundTrip(Abs(totalSeconds));
    if totalSeconds > 0 {
      assert FormatDrift(totalSeconds) == Prefix + amount + " " + Ahead;
      ParseAhead(amount);
    } else {
      assert FormatDrift(totalSeconds) == Prefix + amount + " " + Behind;
      ParseBehind(amount);
    }
  }

  lemma ParseAhead(amount: string)
    requires |amount| >= 2 && amount[|amount| - 1] == 's'
    ensures ParseAmount(amount).Some? ==>
      ParseDrift(Prefix + amount + " " + Ahead) == Some(ParseAmount(amount).value as int)
  {
    var msg := Prefix + amount + " " + Ahead;
    var rest := amount + " " + Ahead;
    assert msg[..|Prefix|] == Prefix;
    assert msg[|Prefix|..] == rest;
    assert rest[|rest| - 6..] == " " + Ahead;
    assert rest[..|rest| - 6] == amount;
  }

  lemma ParseBehind(amount: string)
    requires |amount| >= 2 && amount[|amount| - 1] == 's'
    ensures ParseAmount(amount).Some? ==>
      ParseDrift(Prefix + amount + " " + Behind) == Some(-(ParseAmount(amount).value as int))
  {
    var msg := Prefix + amount + " " + Behind;
    var rest := amount + " " + Behind;
    assert msg[..|Prefix|] == Prefix;
    assert msg[|Prefix|..] == rest;
    assert rest[|rest| - 6] == 'b';
    assert rest[|rest| - 7..] == " " + Behind;
    assert rest[..|rest| - 7] == amount;
  }

  /** formatDrift says "ahead" exactly for a positive drift; zero and negative drift are "behind". */
  lemma FormatDriftDirection(totalSeconds: int)
    ensures totalSeconds > 0 <==>
      FormatDrift(totalSeconds)[|FormatDrift(totalSeconds)| - 6..] == " " + Ahead
    ensures totalSeconds <= 0 <==>
      FormatDrift(totalSeconds)[|FormatDrift(totalSeconds)| - 7..] == " " + Behind
  {
    var msg := FormatDrift(totalSeconds);
    if totalSeconds > 0 {
      assert msg[|msg| - 7] == 's';
      assert msg[|msg| - 7..] != " " + Behind;
    } else {
      assert msg[|msg| - 6] == 'b';
      assert msg[|msg| - 6..] != " " + Ahead;
    }
  }

  lemma NoLetterMInDigits(digits: string)
    requires AllDigits(digits)
    ensures 'm' !in digits
  {
  }

  /** The minutes part is written exactly when the drift is a minute or more. */
  lemma FormatDriftMinutes(totalSeconds: int)
    ensures 'm' in FormatDrift(totalSeconds) <==> Abs(totalSeconds) >= 60
  {
    var a := Abs(totalSeconds);
    var secs := DecimalString(a % 60);
    NoLetterMInDigits(secs);
    var dir := if totalSeconds > 0 then Ahead else Behind;
    assert 'm' !in dir;
    assert 'm' !in Prefix;
    if a >= 60 {
      var mins := DecimalString(a / 60);
      var amount := mins + "m " + secs + "s";
      assert FormatDrift(totalSeconds) == Prefix + amount + " " + dir;
      assert amount[|mins|] == 'm';
    } else {
      assert FormatDrift(totalSeconds) == Prefix + (secs + "s") + " " + dir;
    }
  }

  /** The text shown under the clock for a drift that may be unknown. */
  function DriftLine(driftSeconds: Option<int>): (line: string)
    ensures line != SyncOptimal <==> driftSeconds.Some? && Abs(driftSeconds.value) > 1
    ensures line != SyncOptimal ==> ParseDrift(line) == Some(driftSeconds.value)
  {
    if driftSeconds.Some? && Abs(driftSeconds.value) > 1 then
      FormatDriftRoundTrip(driftSeconds.value);
      assert FormatDrift(driftSeconds.value)[0] != SyncOptimal[0];
      FormatDrift(driftSeconds.value)
    else SyncOptimal
  }
}
