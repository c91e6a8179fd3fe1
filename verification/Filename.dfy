/**
  internal/ledger/filename.go: event file names. `%06d` pads to six digits and more digits
  are written in full; reading a number back follows strconv.Atoi on a 64-bit int.
 */
module Filename {

  datatype Result = Ok(number: nat) | Err

  datatype Option<+T> = None | Some(value: T)

  const MAX_INT: int := 0x7FFF_FFFF_FFFF_FFFF
  const MIN_INT: int := -0x8000_0000_0000_0000
  const EXTENSION: string := ".json"

  predicate IsDigit(c: char) { '0' <= c <= '9' }

  predicate AllDigits(s: string) { forall k :: 0 <= k < |s| ==> IsDigit(s[k]) }

  function DigitChar(d: int): (c: char)
    requires 0 <= d < 10
    ensures IsDigit(c) && DigitValue(c) == d
  {
    ['0', '1', '2', '3', '4', '5', '6', '7', '8', '9'][d]
  }

  function DigitValue(c: char): int { c as int - '0' as int }

  /** Decimal digits, without leading zeros. */
  function Digits(n: nat): (s: string)
    ensures s != [] && AllDigits(s)
  {
    if n < 10 then [DigitChar(n)] else Digits(n / 10) + [DigitChar(n % 10)]
  }

  function Zeros(n: nat): (s: string)
    ensures |s| == n && forall k :: 0 <= k < n ==> s[k] == '0'
  {
    seq(n, _ => '0')
  }

  function PadLeft(s: string, width: nat): string {
    if |s| >= width then s else Zeros(width - |s|) + s
  }

  /** fmt.Sprintf("%06d.json", seq): the sign counts towards the width. */
  function GenerateFilename(seq_: int): string {
    (if seq_ >= 0 then PadLeft(Digits(seq_), 6) else "-" + PadLeft(Digits(-seq_), 5)) + EXTENSION
  }

  function Value(s: string): int
    requires AllDigits(s)
  {
    if s == [] then 0 else Value(s[..|s| - 1]) * 10 + DigitValue(s[|s| - 1])
  }

  /** strconv.Atoi: an optional sign, one or more digits, a value in range. */
  function Atoi(s: string): Option<int> {
    var signed := s != [] && (s[0] == '+' || s[0] == '-');
    var digits := if signed then s[1..] else s;
    if digits == [] || !AllDigits(digits) then None
    else
      var v := if signed && s[0] == '-' then -Value(digits) else Value(digits);
      if MIN_INT <= v <= MAX_INT then Some(v) else None
  }

  predicate HasSuffix(s: string, suffix: string) {
    |s| >= |suffix| && s[|s| - |suffix|..] == suffix
  }

  function ParseFilename(name: string): Result {
    if !HasSuffix(name, EXTENSION) then Err
    else
      var base := name[..|name| - |EXTENSION|];
      if base == [] then Err
      else match Atoi(base)
        case None => Err
        case Some(v) => if v < 0 then Err else Ok(v)
  }

  // ---- Reading a generated name back ------------------------------------------------------------

  lemma {:induction false} DigitsValue(n: nat)
    ensures Value(Digits(n)) == n
  {
    if n < 10 {
      assert Digits(n)[..0] == [];
    } else {
      DigitsValue(n / 10);
      assert Digits(n)[..|Digits(n)| - 1] == Digits(n / 10);
    }
  }

  lemma {:induction false} LeadingZeros(k: nat, s: string)
    requires AllDigits(s)
    ensures AllDigits(Zeros(k) + s) && Value(Zeros(k) + s) == Value(s)
    decreases |s|, k
  {
    if s != [] {
      LeadingZeros(k, s[..|s| - 1]);
      assert (Zeros(k) + s)[..k + |s| - 1] == Zeros(k) + s[..|s| - 1];
    } else if k > 0 {
      LeadingZeros(k - 1, s);
      assert Zeros(k) + s == Zeros(k);
      assert Zeros(k)[..k - 1] == Zeros(k - 1) + s;
    } else {
      assert Zeros(k) + s == s;
    }
  }

  lemma PaddedValue(n: nat, width: nat)
    ensures
      var s := PadLeft(Digits(n), width);
      s != [] && AllDigits(s) && Value(s) == n && s[0] != '+' && s[0] != '-'
  {
    DigitsValue(n);
    LeadingZeros(if |Digits(n)| >= width then 0 else width - |Digits(n)|, Digits(n));
    assert IsDigit(PadLeft(Digits(n), width)[0]);
  }

  /** A generated name reads back as its number, however many digits that takes; names
      generated for negative numbers are refused. */
  lemma FilenameRoundTrip(n: int)
    requires MIN_INT <= n <= MAX_INT
    ensures ParseFilename(GenerateFilename(n)) == (if n >= 0 then Ok(n) else Err)
  {
    var base := if n >= 0 then PadLeft(Digits(n), 6) else "-" + PadLeft(Digits(-n), 5);
    var name := GenerateFilename(n);
    assert name == base + EXTENSION && name[|base|..] == EXTENSION && name[..|base|] == base;
    if n >= 0 {
      PaddedValue(n, 6);
    } else {
      PaddedValue(-n, 5);
      assert base[1..] == PadLeft(Digits(-n), 5);
    }
  }

  /** Distinct numbers have distinct names. */
  lemma FilenamesDistinct(m: nat, n: nat)
    requires m <= MAX_INT && n <= MAX_INT && GenerateFilename(m) == GenerateFilename(n)
    ensures m == n
  {
    FilenameRoundTrip(m);
    FilenameRoundTrip(n);
  }

  /** Neither the lock file nor a temporary file is taken for an event. */
  lemma OtherFilesIgnored(name: string)
    requires HasSuffix(name, ".tmp") || HasSuffix(name, ".lock")
    ensures ParseFilename(name) == Err
  {
    SuffixEnds(name, EXTENSION);
    SuffixEnds(name, ".tmp");
    SuffixEnds(name, ".lock");
  }

  lemma SuffixEnds(s: string, suffix: string)
    requires suffix != []
    ensures HasSuffix(s, suffix) ==> s != [] && s[|s| - 1] == suffix[|suffix| - 1]
  {
    if HasSuffix(s, suffix) { assert s[|s| - 1] == s[|s| - |suffix|..][|suffix| - 1]; }
  }

  // ---- Which names there are -------------------------------------------------------------------------------

  lemma {:induction false} CanonicalDigits(s: string)
    requires s != [] && AllDigits(s)
    ensures Value(s) >= 0 && |Digits(Value(s))| <= |s| && s == Zeros(|s| - |Digits(Value(s))|) + Digits(Value(s))
    ensures Value(s) > 0 ==> Digits(Value(s))[0] != '0'
    decreases |s|
  {
    var init, d := s[..|s| - 1], DigitValue(s[|s| - 1]);
    assert s == init + [s[|s| - 1]] && DigitChar(d) == s[|s| - 1];
    if init == [] {
      assert Value(init) == 0 && s == [DigitChar(d)];
    } else {
      CanonicalDigits(init);
      var u := Value(init);
      assert Value(s) == u * 10 + d;
      if u == 0 {
        assert init == Zeros(|init| - 1) + ['0'] == Zeros(|init|);
      } else {
        assert Value(s) / 10 == u && Value(s) % 10 == d;
        assert Zeros(|init| - |Digits(u)|) + (Digits(u) + [DigitChar(d)]) == s;
      }
    }
  }

  /** A text of at least six digits for n, without a leading zero if there are more. */
  ghost predicate NumberText(base: string, n: nat) {
    AllDigits(base) && Value(base) == n && |base| >= 6 && (|base| > 6 ==> base[0] != '0')
  }

  lemma PaddedIs(base: string, digits: string)
    requires |digits| <= |base| && base == Zeros(|base| - |digits|) + digits
    requires |base| >= 6 && (|base| > 6 ==> base[0] != '0')
    ensures base == PadLeft(digits, 6)
  {
    if |base| > |digits| { assert base[0] == Zeros(|base| - |digits|)[0] == '0'; } else { assert base == digits; }
  }

  lemma NumberTextIs(base: string, n: nat)
    requires NumberText(base, n)
    ensures base == PadLeft(Digits(n), 6)
  {
    hide Digits;
    hide Value;
    CanonicalDigits(base);
    PaddedIs(base, Digits(n));
  }

  lemma PaddedIsText(n: nat)
    ensures NumberText(PadLeft(Digits(n), 6), n)
  {
    assert n == 0 ==> |Digits(n)| == 1;
    DigitsValue(n);
    hide Digits;
    hide Value;
    CanonicalDigits(Digits(n));
    PaddedValue(n, 6);
  }

  /** The name of an event file: the number in at least six digits, and ".json". */
  lemma GeneratedExactly(n: nat, name: string)
    ensures name == GenerateFilename(n) <==> exists base :: NumberText(base, n) && name == base + ".json"
  {
    hide NumberText;
    hide Digits;
    PaddedIsText(n);
    if base :| NumberText(base, n) && name == base + ".json" { NumberTextIs(base, n); }
  }

  /** The name spells n, with any number of leading zeros and perhaps a sign. */
  ghost predicate Spells(name: string, digits: string, n: nat) {
    && digits != [] && AllDigits(digits) && Value(digits) == n <= 0x7FFF_FFFF_FFFF_FFFF
    && (name == digits + ".json" || name == "+" + digits + ".json" || (n == 0 && name == "-" + digits + ".json"))
  }

  lemma AtoiExactly(base: string, n: nat)
    ensures Atoi(base) == Some(n) <==>
      exists digits ::
        && digits != [] && AllDigits(digits) && Value(digits) == n <= 0x7FFF_FFFF_FFFF_FFFF
        && (base == digits || base == "+" + digits || (n == 0 && base == "-" + digits))
  {
    if Atoi(base) == Some(n) {
      var digits := if base[0] == '+' || base[0] == '-' then base[1..] else base;
      assert base == digits || base == "+" + digits || base == "-" + digits;
      ValueNotNegative(digits);
    }
    if digits :| digits != [] && AllDigits(digits) && Value(digits) == n <= 0x7FFF_FFFF_FFFF_FFFF
                 && (base == digits || base == "+" + digits || (n == 0 && base == "-" + digits)) {
      if base == digits { assert IsDigit(base[0]); } else { assert base[1..] == digits; }
    }
  }

  lemma {:induction false} ValueNotNegative(s: string)
    requires AllDigits(s)
    ensures Value(s) >= 0
  {
    if s != [] { ValueNotNegative(s[..|s| - 1]); }
  }

  /** Which file names are taken for event n: exactly those that spell it. */
  lemma ParsedExactly(name: string, n: nat)
    ensures ParseFilename(name) == Ok(n) <==> exists digits :: Spells(name, digits, n)
  {
    if ParseFilename(name) == Ok(n) {
      var base := name[..|name| - 5];
      assert name == base + ".json";
      AtoiExactly(base, n);
      var digits :| digits != [] && AllDigits(digits) && Value(digits) == n <= 0x7FFF_FFFF_FFFF_FFFF
                    && (base == digits || base == "+" + digits || (n == 0 && base == "-" + digits));
      assert Spells(name, digits, n);
    }
    if digits :| Spells(name, digits, n) {
      var base := if name == digits + ".json" then digits
                  else if name == "+" + digits + ".json" then "+" + digits else "-" + digits;
      assert name == base + ".json" && name[|base|..] == ".json" && name[..|base|] == base;
      AtoiExactly(base, n);
    }
  }
}
