/**
  Array-index tokens: `parse_index` and the `str::parse::<usize>` it calls.
 */
module ArrayIndex {
  import opened Wrappers

  /** The largest `usize` on a 64-bit target. */
  const USIZE_MAX: nat := 0xFFFF_FFFF_FFFF_FFFF

  predicate IsDigit(c: char) {
    '0' <= c <= '9'
  }

  predicate AllDigits(s: string) {
    forall i :: 0 <= i < |s| ==> IsDigit(s[i])
  }

  /** The decimal value of a digit string, read left to right. */
  function DecimalValue(s: string): nat
    requires AllDigits(s)
    decreases |s|
  {
    if s == [] then 0 else DecimalValue(s[..|s| - 1]) * 10 + (s[|s| - 1] as int - '0' as int)
  }

  /** The one spelling of an index that `parse_index` accepts: `0`, or
      digits starting with 1 to 9. */
  predicate IsCanonical(s: string) {
    s != [] && AllDigits(s) && (s == "0" || s[0] != '0')
  }

  /** Rust's `str::parse::<usize>`: an optional `+` followed by one or more
      ASCII digits whose value fits in a `usize`. */
  function ParseUsize(s: string): Option<nat> {
    var digits := if s != [] && s[0] == '+' then s[1..] else s;
    if digits != [] && AllDigits(digits) && DecimalValue(digits) <= USIZE_MAX
    then Some(DecimalValue(digits))
    else None
  }

  /** `parse_index`: refuses a leading `+` and leading zeros, then parses. */
  function ParseIndex(s: string): (r: Option<nat>)
    ensures r.Some? <==> IsCanonical(s) && DecimalValue(s) <= USIZE_MAX
    ensures r.Some? ==> r.value == DecimalValue(s)
  {
    if (s != [] && s[0] == '+') || (s != [] && s[0] == '0' && |s| != 1) then None
    else ParseUsize(s)
  }

  /** The canonical decimal spelling of `n`. */
  function Decimal(n: nat): string
    decreases n
  {
    if n < 10 then [('0' as int + n) as char]
    else Decimal(n / 10) + [('0' as int + n % 10) as char]
  }

  lemma {:induction false} DecimalIsCanonical(n: nat)
    ensures IsCanonical(Decimal(n)) && DecimalValue(Decimal(n)) == n
    decreases n
  {
    if n >= 10 {
      DecimalIsCanonical(n / 10);
      var s := Decimal(n);
      assert s[..|s| - 1] == Decimal(n / 10);
      assert s[0] == Decimal(n / 10)[0];
    }
  }

  lemma {:induction false} CanonicalIsPositive(s: string)
    requires IsCanonical(s) && s != "0"
    ensures DecimalValue(s) >= 1
    decreases |s|
  {
    if |s| > 1 {
      var init := s[..|s| - 1];
      assert init[0] == s[0];
      CanonicalIsPositive(init);
    }
  }

  lemma {:induction false} DecimalOfCanonical(s: string)
    requires IsCanonical(s)
    ensures Decimal(DecimalValue(s)) == s
    decreases |s|
  {
    if |s| > 1 {
      var init := s[..|s| - 1];
      assert init[0] == s[0];
      CanonicalIsPositive(init);
      DecimalOfCanonical(init);
      assert s == init + [s[|s| - 1]];
    }
  }

  /** Every index up to `usize::MAX` has exactly one accepted spelling: its
      canonical decimal form parses to it, and nothing else does. */
  lemma ParseIndexRoundTrip(s: string, n: nat)
    ensures n <= USIZE_MAX ==> ParseIndex(Decimal(n)) == Some(n)
    ensures ParseIndex(s) == Some(n) ==> s == Decimal(n)
  {
    DecimalIsCanonical(n);
    if ParseIndex(s) == Some(n) {
      DecimalOfCanonical(s);
    }
  }
}
