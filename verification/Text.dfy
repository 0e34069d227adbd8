/** The few string functions of the Go standard library that the controller relies on. */
module Text {
  import opened Wrappers

  // ---- strings.Split with a one-character separator ----

  function Split(s: string, sep: char): (parts: seq<string>)
    ensures |parts| >= 1
  {
    if s == "" then [""]
    else
      var rest := Split(s[1..], sep);
      if s[0] == sep then [""] + rest else [[s[0]] + rest[0]] + rest[1..]
  }

  lemma {:induction false} SplitWhole(s: string, sep: char)
    ensures |Split(s, sep)| == 1 <==> sep !in s
    ensures sep !in s ==> Split(s, sep) == [s]
  {
    if s == "" {
    } else {
      SplitWhole(s[1..], sep);
      assert s == [s[0]] + s[1..];
    }
  }

  /** Splitting cuts at the first separator and goes on behind it. */
  lemma {:induction false} SplitFirst(a: string, sep: char, b: string)
    requires sep !in a
    ensures Split(a + [sep] + b, sep) == [a] + Split(b, sep)
  {
    var s := a + [sep] + b;
    if a == "" {
      assert s[1..] == b;
    } else {
      assert s[1..] == a[1..] + [sep] + b;
      SplitFirst(a[1..], sep, b);
      assert a == [a[0]] + a[1..];
    }
  }

  /** Two strings cut by the same separator agree on both sides of their first cut. */
  lemma CutUnique(a: string, b: string, sep: char, a': string, b': string)
    requires sep !in a && sep !in a'
    requires a + [sep] + b == a' + [sep] + b'
    ensures a == a' && b == b'
  {
    var s := a + [sep] + b;
    SplitFirst(a, sep, b);
    SplitFirst(a', sep, b');
    assert a == Split(s, sep)[0] == a';
    assert b == s[|a| + 1..] == b';
  }

  // ---- strings.TrimSuffix and strings.ToLower (ASCII letters) ----

  predicate HasSuffix(s: string, suffix: string) {
    |suffix| <= |s| && s[|s| - |suffix|..] == suffix
  }

  function TrimSuffix(s: string, suffix: string): string {
    if HasSuffix(s, suffix) then s[..|s| - |suffix|] else s
  }

  lemma SuffixOfConcat(a: string, suffix: string)
    ensures HasSuffix(a + suffix, suffix)
    ensures TrimSuffix(a + suffix, suffix) == a
  {
    assert (a + suffix)[|a|..] == suffix;
    assert (a + suffix)[..|a|] == a;
  }

  lemma SuffixEndsAlike(s: string, suffix: string)
    requires HasSuffix(s, suffix) && suffix != ""
    ensures s[|s| - 1] == suffix[|suffix| - 1]
  {
    assert s[|s| - 1] == s[|s| - |suffix|..][|suffix| - 1];
  }

  function LowerChar(c: char): char {
    if 'A' <= c <= 'Z' then (c as int + 32) as char else c
  }

  function ToLower(s: string): (r: string)
    ensures |r| == |s|
  {
    seq(|s|, i requires 0 <= i < |s| => LowerChar(s[i]))
  }

  /** Character by character: capitals become the small letter, all else stays. */
  lemma ToLowerExact(s: string, i: nat)
    requires i < |s|
    ensures !('A' <= ToLower(s)[i] <= 'Z')
    ensures 'A' <= s[i] <= 'Z' ==> ToLower(s)[i] as int - 'a' as int == s[i] as int - 'A' as int
    ensures !('A' <= s[i] <= 'Z') ==> ToLower(s)[i] == s[i]
  {
  }

  lemma ToLowerConcat(a: string, b: string)
    ensures ToLower(a + b) == ToLower(a) + ToLower(b)
  {
  }

  /** Trimming a suffix twice and appending it once gives back just the lower-case texts that
      have it exactly once. */
  lemma TrimTwiceAndAppend(s: string, suffix: string)
    requires ToLower(suffix) == suffix && suffix != ""
    ensures ToLower(TrimSuffix(TrimSuffix(s, suffix), suffix)) + suffix == s
            <==> ToLower(s) == s && HasSuffix(s, suffix) && !HasSuffix(TrimSuffix(s, suffix), suffix)
  {
    var once := TrimSuffix(s, suffix);
    var twice := TrimSuffix(once, suffix);
    ToLowerConcat(once, suffix);
    if HasSuffix(s, suffix) {
      assert s == once + suffix;
      assert ToLower(s)[..|once|] == ToLower(once);
    }
    if ToLower(twice) + suffix == s {
      SuffixOfConcat(ToLower(twice), suffix);
      assert |once| == |twice| && once == twice;
      assert ToLower(once) == once;
    }
  }

  // ---- decimal numbers: the "%d" verb and strconv.ParseInt(s, 10, 64) ----

  const MIN_INT64: int := -0x8000_0000_0000_0000
  const MAX_INT64: int := 0x7fff_ffff_ffff_ffff

  predicate IsDigit(c: char) {
    '0' <= c <= '9'
  }

  predicate AllDigits(s: string) {
    forall i :: 0 <= i < |s| ==> IsDigit(s[i])
  }

  function Digits(n: nat): (s: string)
    ensures s != "" && AllDigits(s)
  {
    var d := [('0' as int + n % 10) as char];
    if n < 10 then d else Digits(n / 10) + d
  }

  function DigitsValue(s: string): nat
    requires AllDigits(s)
  {
    if s == "" then 0
    else 10 * DigitsValue(s[..|s| - 1]) + (s[|s| - 1] as int - '0' as int)
  }

  function Itoa(n: int): string {
    if n < 0 then "-" + Digits(-n) else Digits(n)
  }

  /** One optional sign, then at least one digit and nothing else. */
  function ParseDecimal(s: string): Option<int> {
    var signed := s != "" && (s[0] == '-' || s[0] == '+');
    var digits := if signed then s[1..] else s;
    if digits == "" || !AllDigits(digits) then None
    else
      var v: int := DigitsValue(digits);
      Some(if signed && s[0] == '-' then -v else v)
  }

  function ParseInt64(s: string): Option<int> {
    var v := ParseDecimal(s);
    if v.Some? && MIN_INT64 <= v.value <= MAX_INT64 then v else None
  }

  lemma {:induction false} DigitsRoundTrip(n: nat)
    ensures DigitsValue(Digits(n)) == n
  {
    var s := Digits(n);
    if n >= 10 {
      DigitsRoundTrip(n / 10);
      assert s[..|s| - 1] == Digits(n / 10);
    } else {
      assert s[..|s| - 1] == "";
    }
  }

  lemma {:induction false} DecimalRoundTrip(n: int)
    ensures ParseDecimal(Itoa(n)) == Some(n)
    ensures ParseInt64(Itoa(n)) == if MIN_INT64 <= n <= MAX_INT64 then Some(n) else None
  {
    if n < 0 {
      DigitsRoundTrip(-n);
      assert Itoa(n)[1..] == Digits(-n);
    } else {
      DigitsRoundTrip(n);
      assert IsDigit(Digits(n)[0]);
    }
  }

  /** What is a number: digits behind at most one sign, within 64 bits. */
  lemma ParsesExactly(digits: string)
    requires digits != "" && AllDigits(digits)
    ensures var v: int := DigitsValue(digits);
            && ParseInt64(digits) == (if v <= MAX_INT64 then Some(v) else None)
            && ParseInt64("+" + digits) == ParseInt64(digits)
            && ParseInt64("-" + digits) == if MIN_INT64 <= -v then Some(-v) else None
  {
    assert ("+" + digits)[1..] == digits && ("-" + digits)[1..] == digits;
    assert IsDigit(digits[0]);
  }

  lemma ParsesNothingElse(s: string)
    requires ParseInt64(s).Some?
    ensures s != ""
    ensures AllDigits(s) || ((s[0] == '+' || s[0] == '-') && s[1..] != "" && AllDigits(s[1..]))
  {
  }

  /** Printed numbers have no leading zeros, and each digit counts ten times the next. */
  lemma {:induction false} DigitsExact(n: nat)
    ensures Digits(n)[0] == '0' ==> n == 0
    ensures |Digits(n)| == 1 <==> n < 10
    ensures n >= 10 ==> Digits(n)[..|Digits(n)| - 1] == Digits(n / 10)
    ensures Digits(n)[|Digits(n)| - 1] as int - '0' as int == n % 10
  {
    if n >= 10 {
      DigitsExact(n / 10);
      assert Digits(n)[0] == Digits(n / 10)[0];
    }
  }

  lemma {:induction false} ItoaInjective(m: int, n: int)
    requires Itoa(m) == Itoa(n)
    ensures m == n
  {
    DecimalRoundTrip(m);
    DecimalRoundTrip(n);
  }
}
