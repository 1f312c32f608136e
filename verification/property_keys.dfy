/** Property names as the Proxy traps receive them (strings), the digit test
    the traps use to decide whether to mirror a write, and the array-index
    names an ordinary array actually stores as elements. */
module PropertyKeys {
  import opened JsValues

  /** One more than the largest array index: 2^32 - 1, also the largest length. */
  const MaxLength: nat := 0xFFFF_FFFF

  predicate IsDigit(ch: char) {
    '0' <= ch <= '9'
  }

  /** `name.match(/\d+/)` succeeds: the pattern is unanchored, so any digit
      anywhere in the name is enough. */
  predicate ContainsDigit(name: string) {
    exists i :: 0 <= i < |name| && IsDigit(name[i])
  }

  predicate AllDigits(s: string) {
    forall i :: 0 <= i < |s| ==> IsDigit(s[i])
  }

  function DigitValue(ch: char): (d: nat)
    requires IsDigit(ch)
    ensures d < 10
  {
    (ch - '0') as nat
  }

  function DigitChar(d: nat): (ch: char)
    requires d < 10
    ensures IsDigit(ch) && DigitValue(ch) == d
  {
    ('0' as int + d) as char
  }

  /** The number a string of decimal digits denotes. */
  function DigitsValue(s: string): nat
    requires AllDigits(s)
  {
    if |s| == 0 then 0 else DigitsValue(s[..|s| - 1]) * 10 + DigitValue(s[|s| - 1])
  }

  /** The canonical decimal spelling of `n`, as `String(n)` writes it. */
  function DecimalString(n: nat): (s: string)
    ensures |s| > 0 && AllDigits(s)
  {
    if n < 10 then [DigitChar(n)] else DecimalString(n / 10) + [DigitChar(n % 10)]
  }

  /** The element index a property name denotes on an ordinary array, if any:
      a canonical decimal (no sign, no leading zero) below 2^32 - 1. Every other
      name, "01", "-1", "1.5" and "4294967295" included, is an ordinary property. */
  function ArrayIndex(name: string): (r: Option<nat>)
    ensures r.Some? ==> r.value < MaxLength && ContainsDigit(name)
    ensures r.Some? <==> |name| > 0 && AllDigits(name) && (name[0] != '0' || |name| == 1)
                         && DigitsValue(name) < MaxLength
  {
    if |name| > 0 && AllDigits(name) && (name[0] != '0' || |name| == 1) && DigitsValue(name) < MaxLength
    then assert IsDigit(name[0]); Some(DigitsValue(name))
    else None
  }

  /** A nonempty digit string without a leading zero denotes at least 1 when it
      has more than one digit. */
  lemma {:induction false} NoLeadingZeroPositive(s: string)
    requires |s| > 0 && AllDigits(s) && s[0] != '0'
    ensures DigitsValue(s) >= 1
  {
    if |s| == 1 {
      assert DigitValue(s[0]) >= 1;
    } else {
      var p := s[..|s| - 1];
      assert p[0] == s[0];
      NoLeadingZeroPositive(p);
    }
  }

  lemma {:induction false} DecimalStringValue(n: nat)
    ensures DigitsValue(DecimalString(n)) == n
    ensures DecimalString(n)[0] != '0' || n == 0
  {
    if n >= 10 {
      var s := DecimalString(n);
      DecimalStringValue(n / 10);
      assert s[..|s| - 1] == DecimalString(n / 10);
      assert s[0] == DecimalString(n / 10)[0];
    }
  }

  /** Writing `a[i]` with a number `i` below 2^32 - 1 reaches the traps as a
      name that denotes index `i`. */
  lemma DecimalIsIndex(n: nat)
    requires n < MaxLength
    ensures ArrayIndex(DecimalString(n)) == Some(n)
  {
    DecimalStringValue(n);
  }

  /** Conversely, every index name is the canonical spelling of its index, so
      index names and indices correspond one to one. */
  lemma {:induction false} IndexIsDecimal(name: string)
    requires ArrayIndex(name).Some?
    ensures name == DecimalString(ArrayIndex(name).value)
  {
    Canonical(name);
  }

  lemma {:induction false} Canonical(s: string)
    requires |s| > 0 && AllDigits(s) && (s[0] != '0' || |s| == 1)
    ensures s == DecimalString(DigitsValue(s))
  {
    var n := DigitsValue(s);
    if |s| == 1 {
      assert s[..0] == [];
      assert DigitsValue(s[..0]) == 0;
      assert n == DigitValue(s[0]);
      assert DigitChar(n) == s[0];
    } else {
      var p := s[..|s| - 1];
      assert p[0] == s[0];
      assert AllDigits(p);
      NoLeadingZeroPositive(p);
      Canonical(p);
      var d := DigitValue(s[|s| - 1]);
      assert n == DigitsValue(p) * 10 + d;
      assert n / 10 == DigitsValue(p) && n % 10 == d;
      assert DigitChar(d) == s[|s| - 1];
      assert s == p + [s[|s| - 1]];
    }
  }

  /** `length` has no digit, so the traps never mirror a write to it. */
  lemma LengthHasNoDigit()
    ensures !ContainsDigit("length")
  {
    assert forall i :: 0 <= i < |"length"| ==> !IsDigit("length"[i]);
  }
}
